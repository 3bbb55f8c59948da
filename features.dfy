/**
 * A dispenser feature as the translation layer sees it: the OpenLayers feature with its
 * identifier, the name of its geometry attribute and its attribute bag (which holds the
 * geometry too), and the errors the layer raises.
 */
module Features {
  import opened Wrappers
  import opened JsValues

  /** A feature identifier, `string | number`. */
  datatype FeatureId = IdStr(s: string) | IdNum(x: real)

  /** `if (id)` on an identifier: the empty string and zero are falsy. */
  predicate IdTruthy(id: FeatureId) {
    match id
    case IdStr(s) => s != ""
    case IdNum(x) => x != 0.0
  }

  /** `${id}` for an identifier that may be missing. */
  function IdText(id: Option<FeatureId>, p: Platform): string {
    match id
    case None => "undefined"
    case Some(IdStr(s)) => s
    case Some(IdNum(x)) => p.numberText(x)
  }

  /** The observable state of a feature. */
  datatype FeatureState = FeatureState(
    id: Option<FeatureId>,
    geometryName: string,
    properties: map<string, Value>)

  /** `feature.get(key)`: `undefined` for an attribute that is not there. */
  function Get(f: FeatureState, key: string): Value {
    if key in f.properties then f.properties[key] else Undefined
  }

  /** `feature.getGeometry()`: the point stored under the geometry name, if any. */
  function Geometry(f: FeatureState): Option<seq<real>> {
    match Get(f, f.geometryName)
    case PointGeom(c) => Some(c)
    case _ => None
  }

  datatype Operation = Create | Update | Delete

  /** The failures the layer reports to its caller. */
  datatype Error =
    | MissingGeometry
    | NotAString(attribute: string)
    | CreateFailed(status: int, body: string)
    | ServerException(operation: Operation, body: string)
    | HttpStatus(operation: Operation, status: int)

  /** The OpenLayers feature object, whose attributes, geometry name and identifier are
      set one call at a time. */
  class Feature {
    var id: Option<FeatureId>
    var geometryName: string
    var properties: map<string, Value>

    function State(): FeatureState
      reads this
    {
      FeatureState(id, geometryName, properties)
    }

    /** `new Feature(properties)`: no identifier, geometry under the default name. */
    constructor (props: map<string, Value>)
      ensures State() == FeatureState(None, "geometry", props)
    {
      id := None;
      geometryName := "geometry";
      properties := props;
    }

    /** `setGeometryName(name)`: later geometry reads and writes use `name`. */
    method SetGeometryName(name: string)
      modifies this
      ensures State() == old(State()).(geometryName := name)
    {
      geometryName := name;
    }

    /** `setGeometry(g)`: stores the point under the current geometry name. */
    method SetGeometry(coordinates: seq<real>)
      modifies this
      ensures State() == old(State()).(properties := old(properties)[old(geometryName) := PointGeom(coordinates)])
      ensures Geometry(State()) == Some(coordinates)
    {
      properties := properties[geometryName := PointGeom(coordinates)];
    }

    /** `setId(id)` */
    method SetId(newId: FeatureId)
      modifies this
      ensures State() == old(State()).(id := Some(newId))
    {
      id := Some(newId);
    }
  }
}
