/** The fixed configuration of the GeoServer layer the client talks to. */
module Constants {

  const WORKSPACE: string := "waterdispensers"
  const FEATURE_TYPE: string := "water_dispensers"
  const FEATURE_NS: string := "http://localhost/waterdispensers"
  /** The qualified type name, `<workspace>:<feature type>`. */
  const TYPE_NAME: string := WORKSPACE + ":" + FEATURE_TYPE
}
