/**
 * Properties that span the two services: what the request bodies hold for a feature
 * built from the form, and worked examples of identifier normalisation and of
 * response classification.
 */
module EndToEnd {
  import opened Wrappers
  import opened JsValues
  import opened XmlEscape
  import opened XmlTree
  import opened Features
  import opened FeatureService
  import opened GeoServerService

  /** The Insert body of a feature with a geometry whose attributes are strings and a
      boolean flag: the texts escaped, the floor and water types only when non-empty. */
  lemma InsertStringAttributes(f: FeatureState, p: Platform, name: string, isIndoor: bool, floor: string, waterTypes: string)
    requires Geometry(f).Some?
    requires Get(f, "name") == Str(name) && Get(f, "is_indoor") == Bool(isIndoor)
    requires Get(f, "floor") == Str(floor) && Get(f, "water_types") == Str(waterTypes)
    ensures InsertTransaction(f, p).Success?
    ensures InsertedText(f, p, "wd:name") == Some(EscapeXml(name))
    ensures InsertedText(f, p, "wd:is_indoor") == Some(if isIndoor then "true" else "false")
    ensures InsertedText(f, p, "wd:floor") == if floor != "" then Some(EscapeXml(floor)) else None
    ensures InsertedText(f, p, "wd:water_types") == if waterTypes != "" then Some(EscapeXml(waterTypes)) else None
  {
    InsertFields(f, p);
    LeafContent("wd:name", EscapeXml(name));
    LeafContent("wd:is_indoor", if isIndoor then "true" else "false");
    LeafContent("wd:floor", EscapeXml(floor));
    LeafContent("wd:water_types", EscapeXml(waterTypes));
  }

  /** Inserting a feature built from a form always succeeds. The body carries the form's
      name and indoor flag; a floor element exactly for an indoor dispenser with a
      non-empty floor, and a water-types element exactly when the water types are
      non-empty, each holding the form's text escaped. */
  lemma InsertBuiltFeature(form: DispenserForm, coordinates: LonLat, id: Option<FeatureId>, p: Platform)
    ensures InsertTransaction(FormFeature(form, coordinates, id, p), p).Success?
    ensures var f := FormFeature(form, coordinates, id, p);
      InsertedText(f, p, "wd:name") == Some(EscapeXml(form.name)) &&
      InsertedText(f, p, "wd:is_indoor") == Some(if form.isIndoor then "true" else "false") &&
      InsertedText(f, p, "wd:floor") == (if form.isIndoor && form.floor != "" then Some(EscapeXml(form.floor)) else None) &&
      InsertedText(f, p, "wd:water_types") == (if form.waterTypes != "" then Some(EscapeXml(form.waterTypes)) else None)
  {
    var f := FormFeature(form, coordinates, id, p);
    InsertStringAttributes(f, p, form.name, form.isIndoor, if form.isIndoor then form.floor else "", form.waterTypes);
  }

  /** Updating a feature built from a form sends its indoor flag as "true" or "false", the
      form's texts, and filters on the identifier it was given when that is truthy, on
      `undefined` otherwise. */
  lemma UpdateBuiltFeature(form: DispenserForm, coordinates: LonLat, id: Option<FeatureId>, p: Platform)
    ensures var f := FormFeature(form, coordinates, id, p);
      UpdateTransaction(f, p).Success? &&
      var update := Action(UpdateTransaction(f, p).value, "wfs:Update").value;
      PropertyValue(update.children, "is_indoor") == Some(if form.isIndoor then "true" else "false") &&
      PropertyValue(update.children, "name") == Some(EscapeXml(form.name)) &&
      PropertyValue(update.children, "floor") == Some(EscapeXml(if form.isIndoor then form.floor else "")) &&
      PropertyValue(update.children, "water_types") == Some(EscapeXml(form.waterTypes)) &&
      FilterFid(update.children) == Some(if id.Some? && IdTruthy(id.value) then IdText(id, p) else "undefined")
  {
    var f := FormFeature(form, coordinates, id, p);
    UpdateBodyContents(f, p);
    UpdatedChildren(f, p);
    UpdatePropertyValues(PosText(p.toLonLat(Geometry(f).value), p), EscapedOrEmpty(Get(f, "name"), p),
      ToText(Get(f, "is_indoor"), p), EscapedOrEmpty(Get(f, "floor"), p), EscapedOrEmpty(Get(f, "water_types"), p),
      IdText(f.id, p));
  }

  /** A qualified identifier is cut to the part after the workspace; a bare one is kept;
      nothing between two colons gives the empty identifier. */
  lemma DeleteExamples()
    ensures NormalizedFid(IdStr("waterdispensers:water_dispensers.42")) == IdStr("water_dispensers.42")
    ensures NormalizedFid(IdStr("77")) == IdStr("77")
    ensures NormalizedFid(IdStr("a::b")) == IdStr("")
  {
    QualifiedExample();
    NormalizedFidCases("77", "", "", 0.0);
    EmptyExample();
  }

  lemma QualifiedExample()
    ensures NormalizedFid(IdStr("waterdispensers:water_dispensers.42")) == IdStr("water_dispensers.42")
  {
    var pre, mid := "waterdispensers", "water_dispensers.42";
    assert pre + ":" + mid == "waterdispensers:water_dispensers.42";
    NormalizedFidCases(pre, mid, "", 0.0);
  }

  lemma EmptyExample()
    ensures NormalizedFid(IdStr("a::b")) == IdStr("")
  {
    assert "a" + ":" + "" + ":" + "b" == "a::b";
    NormalizedFidCases("a", "", "b", 0.0);
  }

  /** An OK answer reporting a service exception fails Update and Delete; a server error
      with a clean body fails them too; an OK clean answer passes. */
  lemma ClassificationExamples(op: Operation)
    ensures ClassifyChange(op, Response(200, "<ServiceException/>")).Failure?
    ensures ClassifyChange(op, Response(500, "")) == Failure(HttpStatus(op, 500))
    ensures ClassifyChange(op, Response(200, "")) == Success(())
  {
    ExceptionTakesPrecedence(op, 200, "<Service", "/>");
    assert "<Service" + "Exception" + "/>" == "<ServiceException/>";
  }
}
