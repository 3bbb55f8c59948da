# Water dispenser WFS-Transaction layer

This project models the translation layer of the water-dispenser map client in Dafny. On one side are the map features the user edits. On the other is the OGC Web Feature Service 1.1.0 Transaction protocol that GeoServer speaks: section 12 of that specification, with the `ogc:FeatureId` filter of OGC Filter Encoding 1.1.0. The model covers:

- `escapeXml` (`XmlEscape`): the five substitutions that produce the predefined entities of XML 1.0 (section 4.6). Ampersand comes first.
- The three request bodies (`GeoServerService`):
  - Insert is built by successive appends, as `createFeature` does. It is proved equal to the rendering of an element tree.
  - Update and Delete are element trees, as their single template literals are.
  - Readers that know nothing of how a body was built (`ChildTags`, `FindChild`, `Content`, `AttributeValue`, `PropertyNames`, `PropertyValue`, `FilterFid`) state what each body carries.
- The identifier normalisation of `deleteFeature`: a method that reassigns the identifier. It is proved against a reference definition.
- The classification of the server's answers. Insert looks at the status only. Update and Delete look first for `Exception` in the body.
- `featuresToSummary`.
- `buildFeatureFromForm` and `featureToForm` (`FeatureService`). Building mutates an OpenLayers feature object (`Features.Feature`) one setter at a time.

The JavaScript semantics the code relies on are spelled out in `JsValues`:

- truthiness, `||`, `??` and `String()`;
- `includes`;
- `split` on one character.

Reprojection (`toLonLat`, `fromLonLat`) and the printing of a number are opaque functions, gathered in `Platform`.

Files:

| file | contents |
|---|---|
| `wrappers.dfy` | `Option` and `Result` |
| `js_values.dfy` | attribute values, JavaScript operators, `includes`, `split` |
| `xml_escape.dfy` | `escapeXml`, entity decoding and their properties |
| `xml_tree.dfy` | elements, rendering and readers |
| `constants.dfy` | workspace, feature type, namespace, type name |
| `features.dfy` | feature identifiers, feature state, the feature object, errors |
| `feature_service.dfy` | form to feature and back |
| `geoserver_service.dfy` | Insert, Update and Delete bodies, fid normalisation, response classification, summary list |
| `end_to_end.dfy` | bodies of features built from the form; worked examples |

## Model

| member | source | states |
|---|---|---|
| XmlEscape.EscapeXml | src/services/geoserver.service.ts:12-19 | The chain of five global replacements, ampersand first, equals replacing every character independently by its predefined entity (`EscapeEach`). |
| XmlEscape.EscapeXmlRoundTrip | src/services/geoserver.service.ts:13-18 | Decoding the five predefined entities in the escaped text gives the original text back exactly. |
| XmlEscape.EscapeXmlInjective | src/services/geoserver.service.ts:12-19 | Two texts with the same escaping are the same text. |
| XmlEscape.EscapeXmlWellEscaped | src/services/geoserver.service.ts:12-19 | The escaped text holds no raw `<`, `>`, `"` or `'`. Every `&` in it begins `&amp;`, `&lt;`, `&gt;`, `&quot;` or `&apos;`. |
| XmlEscape.EscapeXmlPlainIdentity | src/services/geoserver.service.ts:12-19 | On text without any of the five metacharacters, escaping is the identity. |
| XmlEscape.EscapeXmlLength | src/services/geoserver.service.ts:12-19 | The output is never shorter than the input. It is exactly as long if and only if the input is plain. |
| XmlEscape.EscapeXmlAppend | src/services/geoserver.service.ts:12-19 | Escaping a concatenation is the concatenation of the escapings. |
| XmlEscape.AmpersandMustComeFirst | src/services/geoserver.service.ts:14-18 | For each of `<`, `>`, `"` and `'`, the same chain with the ampersand last no longer decodes back to the character. The chain as written does. |
| JsValues.IncludesIff | src/services/geoserver.service.ts:156 | The left-to-right `includes` scan is true exactly when the pattern occurs at some index. |
| JsValues.IncludesInfix | src/services/geoserver.service.ts:197 | An occurrence of the pattern anywhere in the text is found. |
| JsValues.IncludesChar | src/services/geoserver.service.ts:172 | `s.includes(':')` holds exactly when `:` is one of the characters of `s`. |
| JsValues.IndexOf | src/services/geoserver.service.ts:173 | The returned index holds the character, and no earlier index does. |
| JsValues.TakeUntil | src/services/geoserver.service.ts:173 | The result is a separator-free prefix that ends at the end of the text or just before a separator. |
| JsValues.Split | src/services/geoserver.service.ts:173 | `split` always returns at least one piece. |
| JsValues.SplitWithoutSeparator | src/services/geoserver.service.ts:173 | A text without the separator splits into itself alone. |
| JsValues.SplitFirstPiece | src/services/geoserver.service.ts:173 | The first piece is the text before the first separator. |
| JsValues.SplitSecondPiece | src/services/geoserver.service.ts:173-174 | Once the separator occurs there is a second piece. It is the text between the first separator and the next one, or the end. |
| Features.Feature.constructor | src/services/feature.service.ts:16-21 | A new feature holds the given attributes, has no identifier, and keeps its geometry under the default name. |
| Features.Feature.SetGeometryName | src/services/feature.service.ts:23 | Only the geometry name changes. |
| Features.Feature.SetGeometry | src/services/feature.service.ts:24 | The point is stored under the current geometry name, and nothing else changes. Afterwards the feature's geometry is that point. |
| Features.Feature.SetId | src/services/feature.service.ts:26-28 | Only the identifier changes. |
| FeatureService.FormFeature | src/services/feature.service.ts:9-31 | The built feature: <br>• the geometry is under `geom` and is the reprojected point; <br>• name, indoor flag and water types are copied verbatim; <br>• the floor is the form's floor for an indoor dispenser and `""` otherwise; <br>• the attribute keys are exactly those five; <br>• the identifier is set exactly when it is given and truthy. |
| FeatureService.BuildFeatureFromForm | src/services/feature.service.ts:9-31 | Constructing the feature and then calling the three setters yields a fresh feature in the `FormFeature` state. |
| FeatureService.FeatureToForm | src/services/feature.service.ts:36-56 | It fails, with `MissingGeometry`, exactly when there is no geometry. Otherwise: <br>• name, floor and water types are `""` when nullish and passed through otherwise, including a present empty string; <br>• the indoor flag is the attribute's truthiness; <br>• a missing coordinate component reads `0`. |
| FeatureService.FormRoundTrip | src/services/feature.service.ts:9-56 | Building from a form and reading back gives the form again, with the floor emptied for an outdoor dispenser. The coordinates come back whenever the two reprojections undo each other. |
| GeoServerService.CreateFeatureBody | src/services/geoserver.service.ts:63-96 | The body built by successive appends is the XML declaration followed by the rendering of the Insert tree. It fails where the tree does. |
| GeoServerService.InsertTransaction | src/services/geoserver.service.ts:63-96 | The Insert document cannot be built exactly when there is no geometry or when the name is truthy but not a string. The first case gives `MissingGeometry`, the second `NotAString("name")`. |
| GeoServerService.InsertedChildren | src/services/geoserver.service.ts:72-96 | The Insert document holds `wfs:Insert`. That holds `wd:water_dispensers`, whose children are the Insert properties. |
| GeoServerService.InsertElementOrder | src/services/geoserver.service.ts:76-92 | The feature's child elements are `wd:geom`, `wd:name`, `wd:is_indoor`, then `wd:floor` and then `wd:water_types`. The last two each appear only when the attribute is truthy. |
| GeoServerService.InsertFields | src/services/geoserver.service.ts:81-92 | The name element is the escaped `name` with `''` for a falsy name. The indoor element is `true` or `false` by truthiness. Floor and water-type elements exist exactly when truthy and hold `escapeXml(String(v))`. |
| GeoServerService.InsertFieldContents | src/services/geoserver.service.ts:81-92 | Name and indoor flag are always sent; floor and water types are sent exactly when truthy. Each escaped text decodes back to the attribute's text and holds no raw markup. |
| GeoServerService.UpdateTransaction | src/services/geoserver.service.ts:113-147 | The Update body fails, with `MissingGeometry`, exactly when the feature has no geometry. |
| GeoServerService.UpdatedChildren | src/services/geoserver.service.ts:129-145 | The `wfs:Update` element names the dispenser type. Its children are the five properties followed by the filter. |
| GeoServerService.UpdatePropertyNames | src/services/geoserver.service.ts:130-142 | The properties set exactly `geom`, `name`, `is_indoor`, `floor` and `water_types`, in that order. |
| GeoServerService.UpdatePropertyValues | src/services/geoserver.service.ts:139-142 | The `name`, `is_indoor`, `floor` and `water_types` properties are each found by name and hold exactly the text written for them. `FeatureUpdateProperties` writes the name, floor and water types through `escapeXml(String(v))`, with `''` for a falsy value, and the indoor flag as `String(v)`, unescaped. |
| GeoServerService.UpdateFilter | src/services/geoserver.service.ts:144 | The filter's `fid` is the identifier text exactly as given. |
| GeoServerService.RenderedFilter | src/services/geoserver.service.ts:144 | The filter is sent as `<ogc:Filter><ogc:FeatureId fid="…"/></ogc:Filter>` with the identifier between the quotes, character for character. |
| GeoServerService.QuotedFidAddsAttribute | src/services/geoserver.service.ts:184 | An identifier of the form `a" name="value` is sent as the same text as a filter whose `ogc:FeatureId` has `fid="a"` and a second attribute `name="value"`. |
| GeoServerService.UpdateBodyContents | src/services/geoserver.service.ts:129-144 | In terms of the readers: <br>• type name, property order and the verbatim indoor flag; <br>• the filter carries the feature's identifier unescaped, or `undefined`; <br>• the three text properties decode to `String(v)`, with `''` for a falsy value, and hold no raw markup. |
| GeoServerService.NormalizeFid | src/services/geoserver.service.ts:171-175 | Reassigning through `includes`, `split` and `parts[1] ?? fid` gives the reference normalisation `NormalizedFid`. |
| GeoServerService.DeleteFallbackUnreachable | src/services/geoserver.service.ts:172-174 | Whenever `includes(':')` holds, `split(':')` has a second piece, so `?? fid` never applies. |
| GeoServerService.NormalizedFidCases | src/services/geoserver.service.ts:171-175 | A number, or a string without a colon, is kept verbatim. Otherwise the result is the text between the first colon and the second colon or the end, which may be empty. |
| GeoServerService.DeleteFeatureBody | src/services/geoserver.service.ts:169-188 | The Delete body is built on the normalised identifier. |
| GeoServerService.DeleteTransaction | src/services/geoserver.service.ts:177-188 | The Delete document: <br>• the root declares the `wfs` and `ogc` namespaces and neither `gml` nor `wd`; <br>• it holds a `wfs:Delete` of the dispenser type; <br>• the filter's `fid` is the identifier's text, unescaped. |
| GeoServerService.DeleteBodyContents | src/services/geoserver.service.ts:169-188 | For a string identifier, the Delete filter's `fid` is the normalised string itself. |
| GeoServerService.ClassifyCreate | src/services/geoserver.service.ts:104-107 | Insert fails exactly on a status outside 200 to 299, and then reports the status and the body. |
| GeoServerService.CreateIgnoresBody | src/services/geoserver.service.ts:104-107 | On an OK status, Insert's outcome does not depend on the body. |
| GeoServerService.ClassifyChange | src/services/geoserver.service.ts:155-163 | Update succeeds exactly on an OK status with a body in which `Exception` occurs nowhere. A body with an occurrence fails with `ServerException`, whatever the status. Otherwise a non-OK status fails with `HttpStatus`. Delete, at lines 196-204, runs the same check. |
| GeoServerService.ExceptionTakesPrecedence | src/services/geoserver.service.ts:196-204 | A body containing `Exception` anywhere fails Update and Delete, whatever the status. |
| GeoServerService.ChangeStricterThanCreate | src/services/geoserver.service.ts:104-163 | An answer Update or Delete accepts, Insert accepts too. An OK answer carrying an exception report passes Insert and fails Update and Delete. |
| GeoServerService.Summarize | src/services/geoserver.service.ts:51-57 | A summary row: <br>• the identifier as is; <br>• a nullish name reads `Unnamed`, nullish water types `""`, a nullish floor `null`; <br>• present values pass through unchanged; <br>• `isIndoor` is the truthiness of `is_indoor`. |
| GeoServerService.FeaturesToSummary | src/services/geoserver.service.ts:50-57 | One row per feature, the i-th row being the i-th feature's summary. |
| GeoServerService.SummaryAppend | src/services/geoserver.service.ts:50-57 | The summary list of a concatenation is the concatenation of the summary lists, so order is kept. |
| EndToEnd.InsertStringAttributes | src/services/geoserver.service.ts:81-92 | For string attributes and a boolean flag: <br>• the Insert holds the escaped name and `true`/`false`; <br>• the escaped floor and water types appear exactly when non-empty. |
| EndToEnd.InsertBuiltFeature | src/services/geoserver.service.ts:81-92 | For a feature built from a form, the Insert always succeeds and: <br>• an outdoor dispenser gets no floor element; <br>• an indoor one with a non-empty floor gets the escaped floor; <br>• the other fields carry the form's values. |
| EndToEnd.UpdateBuiltFeature | src/services/geoserver.service.ts:139-144 | For a feature built from a form, the Update always succeeds and: <br>• the indoor flag is sent as `true`/`false` and the texts escaped; <br>• the filter names the given identifier when it is truthy, and `undefined` otherwise. |
| EndToEnd.DeleteExamples | src/services/geoserver.service.ts:171-175 | `waterdispensers:water_dispensers.42` becomes `water_dispensers.42`. `77` stays `77`. `a::b` becomes the empty identifier. |
| EndToEnd.ClassificationExamples | src/services/geoserver.service.ts:155-163 | For Update and Delete: <br>• status 200 with a `ServiceException` body fails; <br>• status 500 with a clean body fails on the status; <br>• status 200 with a clean body succeeds. |

## Notes on the code

- Update writes `String(feature.get('is_indoor'))`, unescaped. Any value passes through, and a missing flag is sent as `undefined`. `UpdateBodyContents` states this. `EndToEnd.UpdateBuiltFeature` shows that a feature built from the form sends `"true"` or `"false"`.
- `buildFeatureFromForm` sets the identifier only when it is truthy, so `0` and `""` are dropped (`FormFeature`).
- Reprojection is opaque here. `FormRoundTrip` returns the coordinates exactly only under the hypothesis that the two reprojections undo each other.
- Insert escapes `feature.get('name') || ''` without `String()`, while Update converts with `String()` first. A truthy non-string name therefore cannot be inserted; it raises a type error in the running program. The model reports it as `NotAString("name")`. Update sends its text.
- `createFeature` has no geometry guard: it casts the geometry and calls `getCoordinates()` on it (lines 64-65), so a missing geometry raises a type error there. `updateFeature` throws explicitly (lines 115-117). The model reports both as `MissingGeometry`.
- Insert uses `||` and truthiness, while `featureToForm` uses `??`. An empty-string floor is therefore omitted by Insert but kept by `featureToForm`.
- The identifiers in the Update and Delete filters are written between quotes without escaping. An identifier holding `"` ends the `fid` attribute early and changes the document (`QuotedFidAddsAttribute`). Identifiers such as `water_dispensers.42`, as the server issues them, hold no quote.

## Left out

- HTTP and its sequencing are not modelled: `fetch`, the request headers, `response.text()` and `async`. A response is a status and a body. `ok` is taken to mean a status from 200 to 299.
- `fetchFeatures` is not modelled: its GeoJSON parsing is a call into OpenLayers.
- Reprojection between EPSG:4326 and EPSG:3857 is floating-point code in OpenLayers. Printing a number as JavaScript text is the same. Both are opaque functions (`Platform`), and no numeric property of them is claimed.
- Numbers are reals, so `NaN` is not modelled; its falsiness is missing from `Truthy`.
- The indentation and line breaks of the XML templates are not modelled. `Render` writes the same elements, attributes and texts without them, and the Update and Delete bodies' leading and trailing blank text is absent.
- The messages of the thrown errors are not modelled. Failures are the structured `Error` values. The `console.error` logging of Update and Delete is not modelled.
- A geometry that is not a point, or a truthy non-point value stored under the geometry name, is treated as no geometry.
- FeatureService.FormRoundTrip: the coordinates are claimed only under the hypothesis that `toLonLat` undoes `fromLonLat` on them, because reprojection is opaque.
- src/services/map.service.ts is not part of this model: it is map and style construction for rendering.
- The constants and type declarations are used only for their strings and record shapes. eslint.config.js is not part of this model.
