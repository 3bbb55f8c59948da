/**
 * The WFS-Transaction client of the GeoServer service: the request bodies of Insert,
 * Update and Delete (the Transaction operation of OGC Web Feature Service 1.1.0,
 * section 12, with the `ogc:FeatureId` filter of OGC Filter Encoding 1.1.0), the
 * identifier normalisation of Delete, the classification of the server's responses and
 * the summary list. HTTP itself is left to the caller: a response is a status and a body.
 */
module GeoServerService {
  import opened Wrappers
  import opened JsValues
  import opened XmlEscape
  import opened XmlTree
  import opened Features
  import opened Constants

  const XML_DECLARATION: string := "<?xml version=\"1.0\" encoding=\"UTF-8\"?>"
  const WFS_NS: string := "http://www.opengis.net/wfs"
  const GML_NS: string := "http://www.opengis.net/gml"
  const OGC_NS: string := "http://www.opengis.net/ogc"

  /** The root attributes of Insert and Update: service, version and the `wfs`, `gml`,
      `ogc` and feature (`wd`) namespaces. */
  function FeatureNamespaces(): seq<Attribute> {
    [Attribute("service", "WFS"), Attribute("version", "1.1.0"),
     Attribute("xmlns:wfs", WFS_NS), Attribute("xmlns:gml", GML_NS),
     Attribute("xmlns:ogc", OGC_NS), Attribute("xmlns:wd", FEATURE_NS)]
  }

  /** The root attributes of Delete: only the `wfs` and `ogc` namespaces. */
  function DeleteNamespaces(): seq<Attribute> {
    [Attribute("service", "WFS"), Attribute("version", "1.1.0"),
     Attribute("xmlns:wfs", WFS_NS), Attribute("xmlns:ogc", OGC_NS)]
  }

  /** The element of the dispenser feature type, `wd:water_dispensers`. */
  function FeatureTag(): string {
    "wd:" + FEATURE_TYPE
  }

  /** `${c[i]}` on a reprojected coordinate array: a missing component prints as `undefined`. */
  function CoordinateText(c: seq<real>, i: nat, p: Platform): string {
    if i < |c| then p.numberText(c[i]) else "undefined"
  }

  /** The text of `gml:pos`: longitude, a space, latitude. */
  function PosText(lonLat: seq<real>, p: Platform): string {
    CoordinateText(lonLat, 0, p) + " " + CoordinateText(lonLat, 1, p)
  }

  function PointElement(pos: string): Node {
    Element("gml:Point", [Attribute("srsName", "EPSG:4326")], [Leaf("gml:pos", pos)])
  }

  // ---------------------------------------------------------------------------------
  // Insert

  /** The children of the inserted feature element: geometry, name, indoor flag, then the
      floor and the water types only when they are truthy. */
  function InsertProperties(f: FeatureState, lonLat: seq<real>, name: string, p: Platform): seq<Node> {
    [Element("wd:geom", [], [PointElement(PosText(lonLat, p))]),
     Leaf("wd:name", EscapeXml(name)),
     Leaf("wd:is_indoor", if Truthy(Get(f, "is_indoor")) then "true" else "false")]
    + OptionalLeaf("wd:floor", Get(f, "floor"), p)
    + OptionalLeaf("wd:water_types", Get(f, "water_types"), p)
  }

  /** `if (v) { <tag>escapeXml(String(v))</tag> }` */
  function OptionalLeaf(tag: string, v: Value, p: Platform): seq<Node> {
    if Truthy(v) then [Leaf(tag, EscapeXml(ToText(v, p)))] else []
  }

  /** The Insert document. Without a geometry the coordinates cannot be read; a truthy name
      that is not a string cannot be escaped (`escapeXml` is applied without `String()`).
      It fails exactly in those two cases, with the error naming which. */
  function InsertTransaction(f: FeatureState, p: Platform): (r: Result<Node, Error>)
    ensures r.Failure? <==> Geometry(f).None? || (Truthy(Get(f, "name")) && !Get(f, "name").Str?)
    ensures Geometry(f).None? ==> r == Failure(MissingGeometry)
    ensures Geometry(f).Some? && Truthy(Get(f, "name")) && !Get(f, "name").Str? ==>
      r == Failure(NotAString("name"))
  {
    match Geometry(f)
    case None => Failure(MissingGeometry)
    case Some(g) =>
      var name := Or(Get(f, "name"), Str(""));
      if !name.Str? then Failure(NotAString("name"))
      else
        Success(Element("wfs:Transaction", FeatureNamespaces(),
          [Element("wfs:Insert", [],
            [Element(FeatureTag(), [], InsertProperties(f, p.toLonLat(g), name.s, p))])]))
  }

  /** The request body written out, preceded by the XML declaration. */
  function WithDeclaration(doc: Result<Node, Error>): Result<string, Error> {
    match doc
    case Success(n) => Success(XML_DECLARATION + Render(n))
    case Failure(e) => Failure(e)
  }

  lemma RenderWithChildren(tag: string, attrs: seq<Attribute>, children: seq<Node>)
    requires children != []
    ensures Render(Element(tag, attrs, children)) == StartTag(tag, attrs) + RenderAll(children) + EndTag(tag)
  {
  }

  lemma RenderLeaf(tag: string, text: string)
    ensures Render(Leaf(tag, text)) == StartTag(tag, []) + text + EndTag(tag)
  {
    assert RenderAll([Text(text)]) == text + RenderAll([]);
  }

  lemma RenderSingle(n: Node)
    ensures RenderAll([n]) == Render(n)
  {
    assert [n][1..] == [];
  }

  /** Appending one child's text extends the text of the children so far. */
  lemma AppendChild(xml: string, head: string, done: seq<Node>, n: Node, piece: string)
    requires xml == head + RenderAll(done)
    requires piece == Render(n)
    ensures xml + piece == head + RenderAll(done + [n])
  {
    RenderAllAppend(done, [n]);
    RenderSingle(n);
    Associative(head, RenderAll(done), piece);
  }

  /** Regrouping of strings, stated apart so that it is proved without the rendering
      definitions in scope. */
  lemma Associative(a: string, b: string, c: string)
    ensures (a + b) + c == a + (b + c)
  {
  }

  lemma RenderGeometry(pos: string)
    ensures Render(Element("wd:geom", [], [PointElement(pos)])) ==
      StartTag("wd:geom", []) + StartTag("gml:Point", [Attribute("srsName", "EPSG:4326")])
      + StartTag("gml:pos", []) + pos + EndTag("gml:pos") + EndTag("gml:Point") + EndTag("wd:geom")
  {
    RenderLeaf("gml:pos", pos);
    RenderSingle(Leaf("gml:pos", pos));
    RenderSingle(PointElement(pos));
  }

  /** The Insert document written out after a prefix: the three opening tags, the
      feature's children, the three closing tags. */
  lemma RenderInsert(pre: string, children: seq<Node>)
    requires children != []
    ensures pre + Render(Element("wfs:Transaction", FeatureNamespaces(),
              [Element("wfs:Insert", [], [Element(FeatureTag(), [], children)])])) ==
      pre + StartTag("wfs:Transaction", FeatureNamespaces()) + StartTag("wfs:Insert", [])
      + StartTag(FeatureTag(), []) + RenderAll(children)
      + EndTag(FeatureTag()) + EndTag("wfs:Insert") + EndTag("wfs:Transaction")
  {
    var feature := Element(FeatureTag(), [], children);
    var insert := Element("wfs:Insert", [], [feature]);
    RenderSingle(feature);
    RenderSingle(insert);
    var st, si, sf := StartTag("wfs:Transaction", FeatureNamespaces()), StartTag("wfs:Insert", []), StartTag(FeatureTag(), []);
    var et, ei, ef := EndTag("wfs:Transaction"), EndTag("wfs:Insert"), EndTag(FeatureTag());
    var body := RenderAll(children);
    assert Render(feature) == sf + body + ef;
    assert Render(insert) == si + (sf + body + ef) + ei;
    assert Render(Element("wfs:Transaction", FeatureNamespaces(), [insert])) == st + (si + (sf + body + ef) + ei) + et;
    Nested(pre, st, si, sf, body, ef, ei, et);
  }

  /** The regrouping `RenderInsert` needs, stated apart like `Associative`. */
  lemma Nested(pre: string, st: string, si: string, sf: string, body: string, ef: string, ei: string, et: string)
    ensures pre + (st + (si + (sf + body + ef) + ei) + et) == pre + st + si + sf + body + ef + ei + et
  {
  }

  /** `createFeature`'s body, built by successive appends as the source does. */
  method CreateFeatureBody(f: FeatureState, p: Platform) returns (r: Result<string, Error>)
    ensures r == WithDeclaration(InsertTransaction(f, p))
  {
    var geom := Geometry(f);
    if geom.None? {
      return Failure(MissingGeometry);
    }
    var coords := p.toLonLat(geom.value);
    var name := Or(Get(f, "name"), Str(""));
    if !name.Str? {
      return Failure(NotAString("name"));
    }
    var xml := XML_DECLARATION;
    xml := xml + StartTag("wfs:Transaction", FeatureNamespaces());
    xml := xml + StartTag("wfs:Insert", []);
    xml := xml + StartTag(FeatureTag(), []);
    ghost var head := xml;
    ghost var done: seq<Node> := [];
    assert xml == head + RenderAll(done);

    var pos := PosText(coords, p);
    var piece := StartTag("wd:geom", []) + StartTag("gml:Point", [Attribute("srsName", "EPSG:4326")])
      + StartTag("gml:pos", []) + pos + EndTag("gml:pos") + EndTag("gml:Point") + EndTag("wd:geom");
    RenderGeometry(pos);
    AppendChild(xml, head, done, Element("wd:geom", [], [PointElement(pos)]), piece);
    xml, done := xml + piece, done + [Element("wd:geom", [], [PointElement(pos)])];

    var nameText := EscapeXml(name.s);
    piece := StartTag("wd:name", []) + nameText + EndTag("wd:name");
    RenderLeaf("wd:name", nameText);
    AppendChild(xml, head, done, Leaf("wd:name", nameText), piece);
    xml, done := xml + piece, done + [Leaf("wd:name", nameText)];

    var indoor := if Truthy(Get(f, "is_indoor")) then "true" else "false";
    piece := StartTag("wd:is_indoor", []) + indoor + EndTag("wd:is_indoor");
    RenderLeaf("wd:is_indoor", indoor);
    AppendChild(xml, head, done, Leaf("wd:is_indoor", indoor), piece);
    xml, done := xml + piece, done + [Leaf("wd:is_indoor", indoor)];
    ghost var required := done;
    assert required == [Element("wd:geom", [], [PointElement(pos)]), Leaf("wd:name", nameText), Leaf("wd:is_indoor", indoor)];

    var floor := Get(f, "floor");
    if Truthy(floor) {
      var text := EscapeXml(ToText(floor, p));
      piece := StartTag("wd:floor", []) + text + EndTag("wd:floor");
      RenderLeaf("wd:floor", text);
      AppendChild(xml, head, done, Leaf("wd:floor", text), piece);
      xml, done := xml + piece, done + [Leaf("wd:floor", text)];
    }
    assert done == required + OptionalLeaf("wd:floor", floor, p);

    var waterTypes := Get(f, "water_types");
    ghost var withFloor := done;
    if Truthy(waterTypes) {
      var text := EscapeXml(ToText(waterTypes, p));
      piece := StartTag("wd:water_types", []) + text + EndTag("wd:water_types");
      RenderLeaf("wd:water_types", text);
      AppendChild(xml, head, done, Leaf("wd:water_types", text), piece);
      xml, done := xml + piece, done + [Leaf("wd:water_types", text)];
    }
    assert done == withFloor + OptionalLeaf("wd:water_types", waterTypes, p);
    assert done == InsertProperties(f, coords, name.s, p);

    xml := xml + EndTag(FeatureTag());
    xml := xml + EndTag("wfs:Insert");
    xml := xml + EndTag("wfs:Transaction");
    RenderInsert(XML_DECLARATION, done);
    r := Success(xml);
  }

  /** The feature element inside an Insert document, looked up by tag. */
  function InsertedFeature(doc: Node): Option<Node> {
    match FindChild(Children(doc), "wfs:Insert")
    case None => None
    case Some(insert) => FindChild(Children(insert), FeatureTag())
  }

  /** The text an attribute contributes to the Insert name element: `name || ''`. */
  function InsertNameText(f: FeatureState): string
    requires Or(Get(f, "name"), Str("")).Str?
  {
    Or(Get(f, "name"), Str("")).s
  }

  /** The children of the feature element inside a successful Insert document. */
  lemma InsertedChildren(f: FeatureState, p: Platform)
    requires InsertTransaction(f, p).Success?
    ensures InsertedFeature(InsertTransaction(f, p).value).Some?
    ensures Children(InsertedFeature(InsertTransaction(f, p).value).value) ==
      InsertProperties(f, p.toLonLat(Geometry(f).value), InsertNameText(f), p)
  {
    var doc := InsertTransaction(f, p).value;
    var feature := Element(FeatureTag(), [], InsertProperties(f, p.toLonLat(Geometry(f).value), InsertNameText(f), p));
    var insert := Element("wfs:Insert", [], [feature]);
    assert Children(doc) == [insert];
    assert FindChild([insert], "wfs:Insert") == Some(insert);
    assert FindChild([feature], FeatureTag()) == Some(feature);
  }

  /** Tags and lookups in a list of three elements with distinct tags. */
  lemma ThreeElements(a: Node, b: Node, c: Node, tag: string)
    requires a.Element? && b.Element? && c.Element?
    requires a.tag != b.tag && a.tag != c.tag && b.tag != c.tag
    ensures ChildTags([a, b, c]) == [a.tag, b.tag, c.tag]
    ensures FindChild([a, b, c], tag) ==
      if tag == a.tag then Some(a) else if tag == b.tag then Some(b) else if tag == c.tag then Some(c) else None
  {
    assert [a, b, c][1..] == [b, c];
    assert [b, c][1..] == [c];
    assert [c][1..] == [];
    assert ChildTags([c]) == [c.tag];
    assert ChildTags([b, c]) == [b.tag] + ChildTags([c]);
  }

  /** Tags and lookups in an optional leaf. */
  lemma OptionalLeafLookup(tag: string, v: Value, p: Platform, t: string)
    ensures ChildTags(OptionalLeaf(tag, v, p)) == if Truthy(v) then [tag] else []
    ensures FindChild(OptionalLeaf(tag, v, p), t) ==
      if Truthy(v) && t == tag then Some(Leaf(tag, EscapeXml(ToText(v, p)))) else None
  {
    if Truthy(v) {
      assert OptionalLeaf(tag, v, p)[1..] == [];
    }
  }

  /** The inserted feature's children are the geometry, the name and the indoor flag,
      always, followed by the floor and then the water types, each only when truthy. */
  lemma InsertElementOrder(f: FeatureState, p: Platform)
    requires InsertTransaction(f, p).Success?
    ensures InsertedFeature(InsertTransaction(f, p).value).Some?
    ensures ChildTags(Children(InsertedFeature(InsertTransaction(f, p).value).value)) ==
      ["wd:geom", "wd:name", "wd:is_indoor"]
      + (if Truthy(Get(f, "floor")) then ["wd:floor"] else [])
      + (if Truthy(Get(f, "water_types")) then ["wd:water_types"] else [])
  {
    InsertedChildren(f, p);
    var props := InsertProperties(f, p.toLonLat(Geometry(f).value), InsertNameText(f), p);
    var base := props[..3];
    var floor := OptionalLeaf("wd:floor", Get(f, "floor"), p);
    var waterTypes := OptionalLeaf("wd:water_types", Get(f, "water_types"), p);
    assert props == base + floor + waterTypes;
    ChildTagsAppend(base + floor, waterTypes);
    ChildTagsAppend(base, floor);
    ThreeElements(base[0], base[1], base[2], "");
    assert base == [base[0], base[1], base[2]];
    OptionalLeafLookup("wd:floor", Get(f, "floor"), p, "");
    OptionalLeafLookup("wd:water_types", Get(f, "water_types"), p, "");
  }

  /** The child with the given tag of the inserted feature. */
  function InsertedField(f: FeatureState, p: Platform, tag: string): Option<Node>
    requires InsertTransaction(f, p).Success?
  {
    var feature := InsertedFeature(InsertTransaction(f, p).value);
    if feature.None? then None else FindChild(Children(feature.value), tag)
  }

  /** The text of the child with the given tag of the inserted feature. */
  function InsertedText(f: FeatureState, p: Platform, tag: string): Option<string>
    requires InsertTransaction(f, p).Success?
  {
    match InsertedField(f, p, tag)
    case None => None
    case Some(n) => Some(Content(n))
  }

  /** Looking a tag up among the inserted feature's children. */
  lemma InsertFieldLookup(f: FeatureState, p: Platform, tag: string)
    requires InsertTransaction(f, p).Success?
    ensures var floor := OptionalLeaf("wd:floor", Get(f, "floor"), p);
      var waterTypes := OptionalLeaf("wd:water_types", Get(f, "water_types"), p);
      tag !in {"wd:geom", "wd:name", "wd:is_indoor"} ==>
        InsertedField(f, p, tag) ==
          if FindChild(floor, tag).Some? then FindChild(floor, tag) else FindChild(waterTypes, tag)
    ensures tag == "wd:name" ==> InsertedField(f, p, tag) == Some(Leaf("wd:name", EscapeXml(InsertNameText(f))))
    ensures tag == "wd:is_indoor" ==>
      InsertedField(f, p, tag) == Some(Leaf("wd:is_indoor", if Truthy(Get(f, "is_indoor")) then "true" else "false"))
  {
    InsertedChildren(f, p);
    var props := InsertProperties(f, p.toLonLat(Geometry(f).value), InsertNameText(f), p);
    var base := props[..3];
    var floor := OptionalLeaf("wd:floor", Get(f, "floor"), p);
    var waterTypes := OptionalLeaf("wd:water_types", Get(f, "water_types"), p);
    assert props == base + floor + waterTypes;
    FindChildAppend(base + floor, waterTypes, tag);
    FindChildAppend(base, floor, tag);
    assert base == [base[0], base[1], base[2]];
    ThreeElements(base[0], base[1], base[2], tag);
  }

  lemma InsertFields(f: FeatureState, p: Platform)
    requires InsertTransaction(f, p).Success?
    ensures InsertedField(f, p, "wd:name") == Some(Leaf("wd:name", EscapeXml(InsertNameText(f))))
    ensures InsertedField(f, p, "wd:is_indoor") ==
      Some(Leaf("wd:is_indoor", if Truthy(Get(f, "is_indoor")) then "true" else "false"))
    ensures InsertedField(f, p, "wd:floor") ==
      if Truthy(Get(f, "floor")) then Some(Leaf("wd:floor", EscapeXml(ToText(Get(f, "floor"), p)))) else None
    ensures InsertedField(f, p, "wd:water_types") ==
      if Truthy(Get(f, "water_types")) then Some(Leaf("wd:water_types", EscapeXml(ToText(Get(f, "water_types"), p))))
      else None
  {
    InsertFieldLookup(f, p, "wd:name");
    InsertFieldLookup(f, p, "wd:is_indoor");
    InsertFieldLookup(f, p, "wd:floor");
    InsertFieldLookup(f, p, "wd:water_types");
    OptionalLeafLookup("wd:floor", Get(f, "floor"), p, "wd:floor");
    OptionalLeafLookup("wd:water_types", Get(f, "water_types"), p, "wd:floor");
    OptionalLeafLookup("wd:floor", Get(f, "floor"), p, "wd:water_types");
    OptionalLeafLookup("wd:water_types", Get(f, "water_types"), p, "wd:water_types");
  }

  /** What the Insert body holds in its fields, read off the element tree: the name
      is always sent, as `name || ''`; the indoor flag is always sent, as "true" or
      "false" by truthiness; the floor and the water types are sent exactly when truthy;
      every text decodes back to the attribute's text and contains no raw markup. */
  lemma InsertFieldContents(f: FeatureState, p: Platform)
    requires InsertTransaction(f, p).Success?
    ensures InsertedField(f, p, "wd:name").Some?
    ensures var t := Content(InsertedField(f, p, "wd:name").value);
      Unescape(t) == (if Truthy(Get(f, "name")) then Get(f, "name").s else "") && WellEscaped(t)
    ensures InsertedField(f, p, "wd:is_indoor").Some?
    ensures Content(InsertedField(f, p, "wd:is_indoor").value) == (if Truthy(Get(f, "is_indoor")) then "true" else "false")
    ensures InsertedField(f, p, "wd:floor").Some? <==> Truthy(Get(f, "floor"))
    ensures InsertedField(f, p, "wd:floor").Some? ==>
      var t := Content(InsertedField(f, p, "wd:floor").value);
      Unescape(t) == ToText(Get(f, "floor"), p) && WellEscaped(t)
    ensures InsertedField(f, p, "wd:water_types").Some? <==> Truthy(Get(f, "water_types"))
    ensures InsertedField(f, p, "wd:water_types").Some? ==>
      var t := Content(InsertedField(f, p, "wd:water_types").value);
      Unescape(t) == ToText(Get(f, "water_types"), p) && WellEscaped(t)
  {
    InsertFields(f, p);
    var name := InsertNameText(f);
    LeafContent("wd:name", EscapeXml(name));
    EscapeXmlRoundTrip(name);
    EscapeXmlWellEscaped(name);
    LeafContent("wd:is_indoor", if Truthy(Get(f, "is_indoor")) then "true" else "false");
    var floor := ToText(Get(f, "floor"), p);
    LeafContent("wd:floor", EscapeXml(floor));
    EscapeXmlRoundTrip(floor);
    EscapeXmlWellEscaped(floor);
    var waterTypes := ToText(Get(f, "water_types"), p);
    LeafContent("wd:water_types", EscapeXml(waterTypes));
    EscapeXmlRoundTrip(waterTypes);
    EscapeXmlWellEscaped(waterTypes);
  }

  // ---------------------------------------------------------------------------------
  // Update

  /** `<wfs:Property><wfs:Name>name</wfs:Name><wfs:Value>value</wfs:Value></wfs:Property>` */
  function Property(name: string, value: seq<Node>): Node {
    Element("wfs:Property", [], [Leaf("wfs:Name", name), Element("wfs:Value", [], value)])
  }

  /** `<ogc:Filter><ogc:FeatureId fid="fid"/></ogc:Filter>`, the fid written verbatim. */
  function FeatureIdFilter(fid: string): Node {
    Element("ogc:Filter", [], [Element("ogc:FeatureId", [Attribute("fid", fid)], [])])
  }

  /** `escapeXml(String(v || ''))`, the text of the name, floor and water types. */
  function EscapedOrEmpty(v: Value, p: Platform): string {
    EscapeXml(ToText(Or(v, Str("")), p))
  }

  /** The five properties an Update always sets, in this order, given the point's text
      and the four texts as they are written. */
  function UpdateProperties(pos: string, name: string, isIndoor: string, floor: string, waterTypes: string): seq<Node> {
    [Property("geom", [PointElement(pos)]),
     Property("name", [Text(name)]),
     Property("is_indoor", [Text(isIndoor)]),
     Property("floor", [Text(floor)]),
     Property("water_types", [Text(waterTypes)])]
  }

  /** The properties of a feature's Update. Only `is_indoor` is written unescaped, as
      `String(v)`. */
  function FeatureUpdateProperties(f: FeatureState, lonLat: seq<real>, p: Platform): seq<Node> {
    UpdateProperties(PosText(lonLat, p), EscapedOrEmpty(Get(f, "name"), p), ToText(Get(f, "is_indoor"), p),
      EscapedOrEmpty(Get(f, "floor"), p), EscapedOrEmpty(Get(f, "water_types"), p))
  }

  /** The Update document: the properties, then a filter on the feature's identifier as
      `${fid}` writes it (`undefined` for a feature without one). */
  function UpdateTransaction(f: FeatureState, p: Platform): (r: Result<Node, Error>)
    ensures r.Failure? <==> Geometry(f).None?
    ensures r.Failure? ==> r.error == MissingGeometry
  {
    match Geometry(f)
    case None => Failure(MissingGeometry)
    case Some(g) =>
      Success(Element("wfs:Transaction", FeatureNamespaces(),
        [Element("wfs:Update", [Attribute("typeName", TYPE_NAME)],
          FeatureUpdateProperties(f, p.toLonLat(g), p) + [FeatureIdFilter(IdText(f.id, p))])]))
  }

  /** The name a `wfs:Property` element sets, read from its `wfs:Name` child. */
  function PropertyName(n: Node): Option<string> {
    if !n.Element? || n.tag != "wfs:Property" then None
    else match FindChild(n.children, "wfs:Name")
      case None => None
      case Some(name) => Some(Content(name))
  }

  /** The names of the properties among `ns`, in document order. */
  function PropertyNames(ns: seq<Node>): seq<string> {
    if ns == [] then []
    else (if PropertyName(ns[0]).Some? then [PropertyName(ns[0]).value] else []) + PropertyNames(ns[1..])
  }

  /** The content of the `wfs:Value` of the first property setting `name`. */
  function PropertyValue(ns: seq<Node>, name: string): Option<string> {
    if ns == [] then None
    else if PropertyName(ns[0]) == Some(name) then
      match FindChild(Children(ns[0]), "wfs:Value")
      case None => None
      case Some(v) => Some(Content(v))
    else PropertyValue(ns[1..], name)
  }

  /** The `fid` of the `ogc:FeatureId` inside the first `ogc:Filter` among `ns`. */
  function FilterFid(ns: seq<Node>): Option<string> {
    match FindChild(ns, "ogc:Filter")
    case None => None
    case Some(filter) =>
      match FindChild(Children(filter), "ogc:FeatureId")
      case None => None
      case Some(id) => AttributeValue(id.attrs, "fid")
  }

  /** The transaction element of the given tag inside a document. */
  function Action(doc: Node, tag: string): Option<Node> {
    FindChild(Children(doc), tag)
  }

  lemma PropertyParts(name: string, value: seq<Node>)
    ensures PropertyName(Property(name, value)) == Some(name)
    ensures FindChild(Children(Property(name, value)), "wfs:Value") == Some(Element("wfs:Value", [], value))
  {
    var children := [Leaf("wfs:Name", name), Element("wfs:Value", [], value)];
    assert children[1..] == [Element("wfs:Value", [], value)];
    LeafContent("wfs:Name", name);
  }

  lemma TextContent(text: string)
    ensures Content(Element("wfs:Value", [], [Text(text)])) == text
  {
    assert RenderAll([Text(text)]) == text + RenderAll([]);
  }

  /** The filter as sent: the identifier goes between the quotes exactly as it is. */
  lemma RenderedFilter(fid: string)
    ensures Render(FeatureIdFilter(fid)) ==
      "<ogc:Filter><ogc:FeatureId fid=\"" + fid + "\"/></ogc:Filter>"
  {
    RenderedFilterAttributes([Attribute("fid", fid)]);
    assert RenderAttributes([Attribute("fid", fid)]) == " fid=\"" + fid + "\"" + RenderAttributes([]);
    Regroup("<ogc:Filter><ogc:FeatureId", " fid=\"", fid, "\"", "/></ogc:Filter>");
    FilterJoins();
  }

  /** The filter's text around the attributes of its `ogc:FeatureId`. */
  lemma RenderedFilterAttributes(attrs: seq<Attribute>)
    ensures Render(Element("ogc:Filter", [], [Element("ogc:FeatureId", attrs, [])])) ==
      "<ogc:Filter><ogc:FeatureId" + RenderAttributes(attrs) + "/></ogc:Filter>"
  {
    var id := Element("ogc:FeatureId", attrs, []);
    RenderSingle(id);
    FilterTags();
    var text := RenderAttributes(attrs);
    Regroup("<ogc:Filter>", "<ogc:FeatureId", text, "/>", "</ogc:Filter>");
    FilterJoins();
  }

  lemma FilterTags()
    ensures StartTag("ogc:Filter", []) == "<ogc:Filter>"
    ensures EndTag("ogc:Filter") == "</ogc:Filter>"
  {
  }

  lemma FilterJoins()
    ensures "<ogc:Filter>" + "<ogc:FeatureId" == "<ogc:Filter><ogc:FeatureId"
    ensures "/>" + "</ogc:Filter>" == "/></ogc:Filter>"
    ensures "<ogc:Filter><ogc:FeatureId" + " fid=\"" == "<ogc:Filter><ogc:FeatureId fid=\""
    ensures "\"" + "/></ogc:Filter>" == "\"/></ogc:Filter>"
  {
  }

  lemma Regroup(a: string, b: string, c: string, d: string, e: string)
    ensures a + (b + c + d) + e == (a + b) + c + (d + e)
  {
  }

  /** Because the identifier is not escaped, one holding a quote closes the `fid`
      attribute early: the text sent is that of a filter with a second attribute. */
  lemma QuotedFidAddsAttribute(a: string, name: string, value: string)
    ensures Render(FeatureIdFilter(a + "\" " + name + "=\"" + value)) ==
      Render(Element("ogc:Filter", [], [Element("ogc:FeatureId", [Attribute("fid", a), Attribute(name, value)], [])]))
  {
    var fid := a + "\" " + name + "=\"" + value;
    var one := [Attribute("fid", fid)];
    var two := [Attribute("fid", a), Attribute(name, value)];
    RenderedFilterAttributes(one);
    RenderedFilterAttributes(two);
    SplitQuotedAttribute(a, name, value);
  }

  lemma SplitQuotedAttribute(a: string, name: string, value: string)
    ensures RenderAttributes([Attribute("fid", a + "\" " + name + "=\"" + value)]) ==
      RenderAttributes([Attribute("fid", a), Attribute(name, value)])
  {
    var two := [Attribute("fid", a), Attribute(name, value)];
    assert two[1..] == [Attribute(name, value)];
    assert RenderAttributes(two[1..]) == " " + name + "=\"" + value + "\"" + RenderAttributes([]);
  }

  lemma FilterParts(fid: string)
    ensures FindChild(Children(FeatureIdFilter(fid)), "ogc:FeatureId") == Some(Element("ogc:FeatureId", [Attribute("fid", fid)], []))
    ensures AttributeValue([Attribute("fid", fid)], "fid") == Some(fid)
  {
  }

  /** The children of the `wfs:Update` element of a successful Update document. */
  lemma UpdatedChildren(f: FeatureState, p: Platform)
    requires UpdateTransaction(f, p).Success?
    ensures Action(UpdateTransaction(f, p).value, "wfs:Update").Some?
    ensures var update := Action(UpdateTransaction(f, p).value, "wfs:Update").value;
      update.attrs == [Attribute("typeName", TYPE_NAME)] &&
      update.children == FeatureUpdateProperties(f, p.toLonLat(Geometry(f).value), p) + [FeatureIdFilter(IdText(f.id, p))]
  {
    var update := Element("wfs:Update", [Attribute("typeName", TYPE_NAME)],
      FeatureUpdateProperties(f, p.toLonLat(Geometry(f).value), p) + [FeatureIdFilter(IdText(f.id, p))]);
    assert Children(UpdateTransaction(f, p).value) == [update];
    assert FindChild([update], "wfs:Update") == Some(update);
  }

  /** Reading the property list element by element. */
  lemma PropertyNamesCons(n: Node, rest: seq<Node>)
    ensures PropertyNames([n] + rest) ==
      (if PropertyName(n).Some? then [PropertyName(n).value] else []) + PropertyNames(rest)
  {
    assert ([n] + rest)[0] == n;
    assert ([n] + rest)[1..] == rest;
  }

  /** The value of a property is found past any properties that set other names. */
  lemma {:induction false} PropertyValueFound(pre: seq<Node>, name: string, text: string, rest: seq<Node>)
    requires forall n | n in pre :: PropertyName(n) != Some(name)
    ensures PropertyValue(pre + [Property(name, [Text(text)])] + rest, name) == Some(text)
  {
    var ns := pre + [Property(name, [Text(text)])] + rest;
    if pre == [] {
      assert ns == [Property(name, [Text(text)])] + rest;
      PropertyParts(name, [Text(text)]);
      TextContent(text);
    } else {
      assert ns[0] == pre[0];
      assert ns[1..] == pre[1..] + [Property(name, [Text(text)])] + rest;
      PropertyValueFound(pre[1..], name, text, rest);
    }
  }

  /** Five properties followed by a node that sets nothing set the five names in order. */
  lemma FivePropertyNames(names: seq<string>, values: seq<seq<Node>>, last: Node)
    requires |names| == 5 && |values| == 5
    requires PropertyName(last).None?
    ensures PropertyNames(seq(5, i requires 0 <= i < 5 => Property(names[i], values[i])) + [last]) == names
  {
    var ps := seq(5, i requires 0 <= i < 5 => Property(names[i], values[i]));
    var l5 := [last];
    var l4 := [ps[4]] + l5;
    var l3 := [ps[3]] + l4;
    var l2 := [ps[2]] + l3;
    var l1 := [ps[1]] + l2;
    assert ps + l5 == [ps[0]] + l1;
    assert PropertyNames(l5) == [] by {
      assert l5[1..] == [];
    }
    PropertyParts(names[0], values[0]);
    PropertyParts(names[1], values[1]);
    PropertyParts(names[2], values[2]);
    PropertyParts(names[3], values[3]);
    PropertyParts(names[4], values[4]);
    PropertyNamesCons(ps[4], l5);
    PropertyNamesCons(ps[3], l4);
    PropertyNamesCons(ps[2], l3);
    PropertyNamesCons(ps[1], l2);
    PropertyNamesCons(ps[0], l1);
  }

  /** The names the Update properties set, in order. */
  lemma UpdatePropertyNames(pos: string, name: string, isIndoor: string, floor: string, waterTypes: string, fid: string)
    ensures PropertyNames(UpdateProperties(pos, name, isIndoor, floor, waterTypes) + [FeatureIdFilter(fid)]) ==
      ["geom", "name", "is_indoor", "floor", "water_types"]
  {
    var names := ["geom", "name", "is_indoor", "floor", "water_types"];
    var values := [[PointElement(pos)], [Text(name)], [Text(isIndoor)], [Text(floor)], [Text(waterTypes)]];
    assert UpdateProperties(pos, name, isIndoor, floor, waterTypes) ==
      seq(5, i requires 0 <= i < 5 => Property(names[i], values[i]));
    FivePropertyNames(names, values, FeatureIdFilter(fid));
  }

  /** The value of the `k`-th of distinctly named text properties is found by its name. */
  lemma TextPropertyValue(names: seq<string>, texts: seq<string>, rest: seq<Node>, k: nat)
    requires |names| == |texts| && k < |names|
    requires forall i | 0 <= i < k :: names[i] != names[k]
    ensures PropertyValue(seq(|names|, i requires 0 <= i < |names| => Property(names[i], [Text(texts[i])])) + rest, names[k])
      == Some(texts[k])
  {
    var ps := seq(|names|, i requires 0 <= i < |names| => Property(names[i], [Text(texts[i])]));
    forall n | n in ps[..k]
      ensures PropertyName(n) != Some(names[k])
    {
      var i :| 0 <= i < k && ps[..k][i] == n;
      PropertyParts(names[i], [Text(texts[i])]);
    }
    assert ps + rest == ps[..k] + [Property(names[k], [Text(texts[k])])] + (ps[k + 1..] + rest);
    PropertyValueFound(ps[..k], names[k], texts[k], ps[k + 1..] + rest);
  }

  /** Each text property of an Update is found by its name and holds its text. */
  lemma UpdatePropertyValues(pos: string, name: string, isIndoor: string, floor: string, waterTypes: string, fid: string)
    ensures var ns := UpdateProperties(pos, name, isIndoor, floor, waterTypes) + [FeatureIdFilter(fid)];
      PropertyValue(ns, "name") == Some(name) &&
      PropertyValue(ns, "is_indoor") == Some(isIndoor) &&
      PropertyValue(ns, "floor") == Some(floor) &&
      PropertyValue(ns, "water_types") == Some(waterTypes)
  {
    var names := ["name", "is_indoor", "floor", "water_types"];
    var texts := [name, isIndoor, floor, waterTypes];
    var geom := Property("geom", [PointElement(pos)]);
    var rest := [FeatureIdFilter(fid)];
    var ps := seq(4, i requires 0 <= i < 4 => Property(names[i], [Text(texts[i])]));
    assert UpdateProperties(pos, name, isIndoor, floor, waterTypes) + rest == [geom] + (ps + rest);
    PropertyParts("geom", [PointElement(pos)]);
    PropertyValueSkip(geom, ps + rest, "name");
    PropertyValueSkip(geom, ps + rest, "is_indoor");
    PropertyValueSkip(geom, ps + rest, "floor");
    PropertyValueSkip(geom, ps + rest, "water_types");
    TextPropertyValue(names, texts, rest, 0);
    TextPropertyValue(names, texts, rest, 1);
    TextPropertyValue(names, texts, rest, 2);
    TextPropertyValue(names, texts, rest, 3);
  }

  lemma PropertyValueSkip(n: Node, rest: seq<Node>, name: string)
    requires PropertyName(n) != Some(name)
    ensures PropertyValue([n] + rest, name) == PropertyValue(rest, name)
  {
    assert ([n] + rest)[0] == n;
    assert ([n] + rest)[1..] == rest;
  }

  /** The filter after the properties carries the identifier text as given. */
  lemma UpdateFilter(pos: string, name: string, isIndoor: string, floor: string, waterTypes: string, fid: string)
    ensures FilterFid(UpdateProperties(pos, name, isIndoor, floor, waterTypes) + [FeatureIdFilter(fid)]) == Some(fid)
  {
    var props := UpdateProperties(pos, name, isIndoor, floor, waterTypes);
    FindChildAppend(props, [FeatureIdFilter(fid)], "ogc:Filter");
    assert FindChild(props, "ogc:Filter").None?;
    assert FindChild([FeatureIdFilter(fid)], "ogc:Filter") == Some(FeatureIdFilter(fid));
    FilterParts(fid);
  }

  /** What the Update body promises: it sets exactly the five properties, in order; the
      name, floor and water types are sent escaped as `String(v || '')`, so they decode to
      that text and hold no raw markup; the indoor flag is sent as `String(v)`, verbatim;
      the filter names the feature's identifier as written, unescaped; the type is the
      qualified dispenser type. */
  lemma UpdateBodyContents(f: FeatureState, p: Platform)
    requires UpdateTransaction(f, p).Success?
    ensures Action(UpdateTransaction(f, p).value, "wfs:Update").Some?
    ensures var update := Action(UpdateTransaction(f, p).value, "wfs:Update").value;
      AttributeValue(update.attrs, "typeName") == Some(TYPE_NAME) &&
      PropertyNames(update.children) == ["geom", "name", "is_indoor", "floor", "water_types"] &&
      PropertyValue(update.children, "is_indoor") == Some(ToText(Get(f, "is_indoor"), p)) &&
      FilterFid(update.children) == Some(IdText(f.id, p))
    ensures var update := Action(UpdateTransaction(f, p).value, "wfs:Update").value;
      forall key | key in ["name", "floor", "water_types"] ::
        PropertyValue(update.children, key).Some? &&
        Unescape(PropertyValue(update.children, key).value) == ToText(Or(Get(f, key), Str("")), p) &&
        WellEscaped(PropertyValue(update.children, key).value)
  {
    UpdatedChildren(f, p);
    var pos := PosText(p.toLonLat(Geometry(f).value), p);
    var name, isIndoor := EscapedOrEmpty(Get(f, "name"), p), ToText(Get(f, "is_indoor"), p);
    var floor, waterTypes := EscapedOrEmpty(Get(f, "floor"), p), EscapedOrEmpty(Get(f, "water_types"), p);
    UpdatePropertyNames(pos, name, isIndoor, floor, waterTypes, IdText(f.id, p));
    UpdatePropertyValues(pos, name, isIndoor, floor, waterTypes, IdText(f.id, p));
    UpdateFilter(pos, name, isIndoor, floor, waterTypes, IdText(f.id, p));
    forall key | key in ["name", "floor", "water_types"]
      ensures Unescape(EscapedOrEmpty(Get(f, key), p)) == ToText(Or(Get(f, key), Str("")), p)
      ensures WellEscaped(EscapedOrEmpty(Get(f, key), p))
    {
      EscapeXmlRoundTrip(ToText(Or(Get(f, key), Str("")), p));
      EscapeXmlWellEscaped(ToText(Or(Get(f, key), Str("")), p));
    }
  }

  // ---------------------------------------------------------------------------------
  // Delete

  /** The identifier Delete filters on: a string holding a colon (`workspace:layer.id`)
      is cut down to the text between its first colon and the next one, or the end. */
  function NormalizedFid(fid: FeatureId): FeatureId {
    if fid.IdStr? && ':' in fid.s then
      IdStr(TakeUntil(fid.s[IndexOf(fid.s, ':') + 1..], ':'))
    else fid
  }

  /** `deleteFeature`'s reassignment of `actualFid`: `split(':')` and `parts[1] ?? fid`. */
  method NormalizeFid(fid: FeatureId) returns (actualFid: FeatureId)
    ensures actualFid == NormalizedFid(fid)
  {
    actualFid := fid;
    if fid.IdStr? {
      IncludesChar(fid.s, ':');
    }
    if fid.IdStr? && Includes(fid.s, ":") {
      var parts := Split(fid.s, ':');
      SplitSecondPiece(fid.s, ':');
      actualFid := if |parts| > 1 then IdStr(parts[1]) else fid;
    }
  }

  /** The `?? fid` fallback never applies: a string that includes a colon always splits
      into at least two pieces. */
  lemma DeleteFallbackUnreachable(s: string)
    requires Includes(s, ":")
    ensures |Split(s, ':')| > 1
  {
    IncludesChar(s, ':');
    SplitSecondPiece(s, ':');
  }

  /** The first colon of `pre + ":" + rest`, when `pre` has none, is the one after `pre`. */
  lemma FirstColon(pre: string, rest: string)
    requires ':' !in pre
    ensures ':' in pre + ":" + rest
    ensures IndexOf(pre + ":" + rest, ':') == |pre|
  {
    assert (pre + ":" + rest)[|pre|] == ':';
  }

  /** The colon-free text before the next colon of `mid + tail` is `mid`. */
  lemma {:induction false} UpToColon(mid: string, tail: string)
    requires ':' !in mid
    requires tail == [] || tail[0] == ':'
    ensures TakeUntil(mid + tail, ':') == mid
  {
    if mid == [] {
      assert mid + tail == tail;
    } else {
      assert (mid + tail)[0] == mid[0];
      assert (mid + tail)[1..] == mid[1..] + tail;
      UpToColon(mid[1..], tail);
    }
  }

  /** Normalisation keeps numbers and colon-free strings and otherwise takes the text
      between the first and second colon, which may be empty. */
  lemma NormalizedFidCases(pre: string, mid: string, post: string, x: real)
    requires ':' !in pre && ':' !in mid
    ensures NormalizedFid(IdNum(x)) == IdNum(x)
    ensures NormalizedFid(IdStr(pre)) == IdStr(pre)
    ensures NormalizedFid(IdStr(pre + ":" + mid)) == IdStr(mid)
    ensures NormalizedFid(IdStr(pre + ":" + mid + ":" + post)) == IdStr(mid)
  {
    FirstColon(pre, mid);
    assert (pre + ":" + mid)[|pre| + 1..] == mid;
    UpToColon(mid, []);
    assert mid + [] == mid;
    FirstColon(pre, mid + ":" + post);
    assert pre + ":" + mid + ":" + post == pre + ":" + (mid + ":" + post);
    assert (pre + ":" + (mid + ":" + post))[|pre| + 1..] == mid + (":" + post);
    UpToColon(mid, ":" + post);
  }

  /** The Delete document: a `wfs:Delete` of the dispenser type whose filter names the
      identifier as given, unescaped; the root declares neither `gml` nor `wd`. */
  function DeleteTransaction(actualFid: FeatureId, p: Platform): (doc: Node)
    ensures doc.Element? && doc.tag == "wfs:Transaction"
    ensures AttributeValue(doc.attrs, "xmlns:wfs") == Some(WFS_NS)
    ensures AttributeValue(doc.attrs, "xmlns:ogc") == Some(OGC_NS)
    ensures AttributeValue(doc.attrs, "xmlns:gml") == None
    ensures AttributeValue(doc.attrs, "xmlns:wd") == None
    ensures Action(doc, "wfs:Delete").Some?
    ensures AttributeValue(Action(doc, "wfs:Delete").value.attrs, "typeName") == Some(TYPE_NAME)
    ensures FilterFid(Action(doc, "wfs:Delete").value.children) == Some(IdText(Some(actualFid), p))
  {
    var text := IdText(Some(actualFid), p);
    var delete := Element("wfs:Delete", [Attribute("typeName", TYPE_NAME)], [FeatureIdFilter(text)]);
    assert FindChild([delete], "wfs:Delete") == Some(delete);
    assert FindChild([FeatureIdFilter(text)], "ogc:Filter") == Some(FeatureIdFilter(text));
    FilterParts(text);
    Element("wfs:Transaction", DeleteNamespaces(), [delete])
  }

  /** `deleteFeature`'s body for the identifier it is given. */
  method DeleteFeatureBody(fid: FeatureId, p: Platform) returns (doc: Node)
    ensures doc == DeleteTransaction(NormalizedFid(fid), p)
  {
    var actualFid := NormalizeFid(fid);
    doc := DeleteTransaction(actualFid, p);
  }

  /** What `deleteFeature` sends for a string identifier: a filter whose `fid` is the
      normalised string itself, character for character. */
  lemma DeleteBodyContents(fid: FeatureId, p: Platform)
    requires fid.IdStr?
    ensures NormalizedFid(fid).IdStr?
    ensures FilterFid(Action(DeleteTransaction(NormalizedFid(fid), p), "wfs:Delete").value.children) == Some(NormalizedFid(fid).s)
  {
  }

  // ---------------------------------------------------------------------------------
  // Responses

  /** What the client sees of the server's answer. */
  datatype Response = Response(status: int, body: string)

  /** `response.ok`: a status in the range 200 to 299. */
  predicate Ok(r: Response) {
    200 <= r.status <= 299
  }

  /** `createFeature` looks at the status only: it fails exactly on a status outside
      200..299, and then reports the status and the body. */
  function ClassifyCreate(r: Response): (res: Result<(), Error>)
    ensures res.Failure? <==> !Ok(r)
    ensures !Ok(r) ==> res == Failure(CreateFailed(r.status, r.body))
  {
    if !Ok(r) then Failure(CreateFailed(r.status, r.body)) else Success(())
  }

  /** `updateFeature` and `deleteFeature` (`op` says which): a body mentioning
      `Exception` fails first, whatever the status; then the status is checked. They
      succeed exactly on an OK status with a body free of `Exception`. */
  function ClassifyChange(op: Operation, r: Response): (res: Result<(), Error>)
    ensures res.Success? <==> Ok(r) && !exists i: nat :: OccursAt(r.body, "Exception", i)
    ensures (exists i: nat :: OccursAt(r.body, "Exception", i)) ==>
      res == Failure(ServerException(op, r.body))
    ensures !Ok(r) && !(exists i: nat :: OccursAt(r.body, "Exception", i)) ==>
      res == Failure(HttpStatus(op, r.status))
  {
    IncludesIff(r.body, "Exception");
    if Includes(r.body, "Exception") then Failure(ServerException(op, r.body))
    else if !Ok(r) then Failure(HttpStatus(op, r.status))
    else Success(())
  }

  /** On success Insert never consults the body. */
  lemma CreateIgnoresBody(r: Response, otherBody: string)
    requires Ok(r)
    ensures ClassifyCreate(r.(body := otherBody)) == ClassifyCreate(r)
  {
  }

  /** A body that mentions `Exception` anywhere fails the change, whatever the status. */
  lemma ExceptionTakesPrecedence(op: Operation, status: int, pre: string, post: string)
    ensures var body := pre + "Exception" + post;
      ClassifyChange(op, Response(status, body)) == Failure(ServerException(op, body))
  {
    IncludesInfix(pre, "Exception", post);
  }

  /** A response accepted for Update or Delete would be accepted for Insert, but not the
      other way round: an OK answer reporting an exception passes Insert's check. */
  lemma ChangeStricterThanCreate(op: Operation, r: Response)
    ensures ClassifyChange(op, r).Success? ==> ClassifyCreate(r).Success?
    ensures var answer := Response(200, "<ows:ExceptionReport/>");
      ClassifyCreate(answer).Success? && ClassifyChange(op, answer).Failure?
  {
    ExceptionReport(op);
  }

  lemma ExceptionReport(op: Operation)
    ensures ClassifyChange(op, Response(200, "<ows:ExceptionReport/>")).Failure?
  {
    var pre, post := "<ows:", "Report/>";
    assert pre + "Exception" + post == "<ows:ExceptionReport/>";
    ExceptionTakesPrecedence(op, 200, pre, post);
  }

  // ---------------------------------------------------------------------------------
  // Summary list

  /** One row of the summary list. */
  datatype Summary = Summary(id: Option<FeatureId>, name: Value, isIndoor: bool, waterTypes: Value, floor: Value)

  /** The summary row of one feature: a missing name reads `Unnamed`, missing water types
      the empty string, a missing floor `null`; present values pass through unchanged. */
  function Summarize(f: FeatureState): (s: Summary)
    ensures s.id == f.id
    ensures s.isIndoor <==> Truthy(Get(f, "is_indoor"))
    ensures s.name == (if Nullish(Get(f, "name")) then Str("Unnamed") else Get(f, "name"))
    ensures s.waterTypes == (if Nullish(Get(f, "water_types")) then Str("") else Get(f, "water_types"))
    ensures s.floor == (if Nullish(Get(f, "floor")) then Null else Get(f, "floor"))
  {
    Summary(
      f.id,
      Coalesce(Get(f, "name"), Str("Unnamed")),
      Truthy(Get(f, "is_indoor")),
      Coalesce(Get(f, "water_types"), Str("")),
      Coalesce(Get(f, "floor"), Null))
  }

  /** `featuresToSummary`: one row per feature, in the same order. */
  function FeaturesToSummary(fs: seq<FeatureState>): (rows: seq<Summary>)
    ensures |rows| == |fs|
    ensures forall i | 0 <= i < |fs| :: rows[i] == Summarize(fs[i])
  {
    if fs == [] then [] else [Summarize(fs[0])] + FeaturesToSummary(fs[1..])
  }

  /** The summary of a concatenation is the concatenation of the summaries. */
  lemma SummaryAppend(a: seq<FeatureState>, b: seq<FeatureState>)
    ensures FeaturesToSummary(a + b) == FeaturesToSummary(a) + FeaturesToSummary(b)
  {
    var l, r := FeaturesToSummary(a + b), FeaturesToSummary(a) + FeaturesToSummary(b);
    assert |l| == |r|;
    forall i | 0 <= i < |l|
      ensures l[i] == r[i]
    {
      if i < |a| {
        assert (a + b)[i] == a[i];
      } else {
        assert (a + b)[i] == b[i - |a|];
      }
    }
  }
}
