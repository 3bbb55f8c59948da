/**
 * The mapping between the dispenser form (name, indoor flag, floor, water types and a
 * longitude/latitude pair) and a map feature: `buildFeatureFromForm` and
 * `featureToForm`. Reprojection between EPSG:4326 and EPSG:3857 is the opaque
 * `Platform.fromLonLat`/`Platform.toLonLat`.
 */
module FeatureService {
  import opened Wrappers
  import opened JsValues
  import opened Features

  /** The form as the user fills it in. */
  datatype DispenserForm = DispenserForm(name: string, isIndoor: bool, floor: string, waterTypes: string)

  /** A `[lon, lat]` pair in geographic coordinates. */
  datatype LonLat = LonLat(lon: real, lat: real)

  /** The form as `featureToForm` reads it back: `??` passes any non-nullish attribute
      value through unchanged, so the text fields hold attribute values, not strings. */
  datatype FormFields = FormFields(name: Value, isIndoor: bool, floor: Value, waterTypes: Value)

  datatype FormReading = FormReading(form: FormFields, coordinates: LonLat)

  /** The form's fields as attribute values. */
  function AsFields(form: DispenserForm): FormFields {
    FormFields(Str(form.name), form.isIndoor, Str(form.floor), Str(form.waterTypes))
  }

  /** The form a feature keeps: the floor only counts for an indoor dispenser. */
  function Kept(form: DispenserForm): DispenserForm {
    form.(floor := if form.isIndoor then form.floor else "")
  }

  /** The attribute bag handed to `new Feature(...)`. */
  function FormAttributes(form: DispenserForm): map<string, Value> {
    map[
      "name" := Str(form.name),
      "is_indoor" := Bool(form.isIndoor),
      "floor" := Str(if form.isIndoor then form.floor else ""),
      "water_types" := Str(form.waterTypes)]
  }

  /** The state of the feature `buildFeatureFromForm` returns. */
  function FormFeature(form: DispenserForm, coordinates: LonLat, id: Option<FeatureId>, p: Platform): (f: FeatureState)
    ensures f.geometryName == "geom"
    ensures Geometry(f) == Some(p.fromLonLat([coordinates.lon, coordinates.lat]))
    ensures Get(f, "name") == Str(form.name)
    ensures Get(f, "is_indoor") == Bool(form.isIndoor)
    ensures Get(f, "water_types") == Str(form.waterTypes)
    ensures form.isIndoor ==> Get(f, "floor") == Str(form.floor)
    ensures !form.isIndoor ==> Get(f, "floor") == Str("")
    ensures f.properties.Keys == {"name", "is_indoor", "floor", "water_types", "geom"}
    ensures f.id.Some? <==> id.Some? && IdTruthy(id.value)
    ensures f.id.Some? ==> f.id == id
  {
    FeatureState(
      if id.Some? && IdTruthy(id.value) then id else None,
      "geom",
      FormAttributes(form)["geom" := PointGeom(p.fromLonLat([coordinates.lon, coordinates.lat]))])
  }

  /** `buildFeatureFromForm`: construct, rename the geometry attribute, set the geometry,
      and set the identifier only when it is truthy. */
  method BuildFeatureFromForm(form: DispenserForm, coordinates: LonLat, id: Option<FeatureId>, p: Platform)
    returns (feature: Feature)
    ensures fresh(feature)
    ensures feature.State() == FormFeature(form, coordinates, id, p)
  {
    var geometry := p.fromLonLat([coordinates.lon, coordinates.lat]);
    feature := new Feature(FormAttributes(form));
    feature.SetGeometryName("geom");
    feature.SetGeometry(geometry);
    if id.Some? && IdTruthy(id.value) {
      feature.SetId(id.value);
    }
  }

  /** `c[i] ?? 0` on a coordinate array. */
  function Component(c: seq<real>, i: nat): real {
    if i < |c| then c[i] else 0.0
  }

  /** `featureToForm`: fails without a geometry; otherwise reads the attributes with
      `??` defaults and the indoor flag by truthiness, and reprojects the point. */
  function FeatureToForm(f: FeatureState, p: Platform): (r: Result<FormReading, Error>)
    ensures r.Failure? <==> Geometry(f).None?
    ensures r.Failure? ==> r.error == MissingGeometry
    ensures r.Success? ==> r.value.form.isIndoor == Truthy(Get(f, "is_indoor"))
    ensures r.Success? ==>
      (Nullish(Get(f, "name")) ==> r.value.form.name == Str("")) &&
      (!Nullish(Get(f, "name")) ==> r.value.form.name == Get(f, "name"))
    ensures r.Success? ==>
      (Nullish(Get(f, "floor")) ==> r.value.form.floor == Str("")) &&
      (!Nullish(Get(f, "floor")) ==> r.value.form.floor == Get(f, "floor"))
    ensures r.Success? ==>
      (Nullish(Get(f, "water_types")) ==> r.value.form.waterTypes == Str("")) &&
      (!Nullish(Get(f, "water_types")) ==> r.value.form.waterTypes == Get(f, "water_types"))
    ensures r.Success? ==>
      var lonLat := p.toLonLat(Geometry(f).value);
      (|lonLat| >= 2 ==> r.value.coordinates == LonLat(lonLat[0], lonLat[1])) &&
      (|lonLat| == 1 ==> r.value.coordinates == LonLat(lonLat[0], 0.0)) &&
      (|lonLat| == 0 ==> r.value.coordinates == LonLat(0.0, 0.0))
  {
    match Geometry(f)
    case None => Failure(MissingGeometry)
    case Some(c) =>
      var lonLat := p.toLonLat(c);
      Success(FormReading(
        FormFields(
          Coalesce(Get(f, "name"), Str("")),
          Truthy(Get(f, "is_indoor")),
          Coalesce(Get(f, "floor"), Str("")),
          Coalesce(Get(f, "water_types"), Str(""))),
        LonLat(Component(lonLat, 0), Component(lonLat, 1))))
  }

  /** Building a feature from a form and reading it back gives the form again, except
      that an outdoor dispenser's floor comes back empty; the coordinates come back
      whenever the two reprojections undo each other on them. */
  lemma FormRoundTrip(form: DispenserForm, coordinates: LonLat, id: Option<FeatureId>, p: Platform)
    ensures FeatureToForm(FormFeature(form, coordinates, id, p), p).Success?
    ensures FeatureToForm(FormFeature(form, coordinates, id, p), p).value.form == AsFields(Kept(form))
    ensures p.toLonLat(p.fromLonLat([coordinates.lon, coordinates.lat])) == [coordinates.lon, coordinates.lat] ==>
      FeatureToForm(FormFeature(form, coordinates, id, p), p).value.coordinates == coordinates
  {
  }
}
