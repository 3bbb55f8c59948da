/**
 * The JavaScript semantics the translation layer leans on: dynamically typed attribute
 * values, truthiness (`if (v)`, `v ? a : b`, `v || d`), nullish coalescing (`v ?? d`),
 * `String(v)`, `String.prototype.includes` and `String.prototype.split` with a one-character
 * separator. The host functions whose results the model does not interpret (reprojection
 * and the rendering of a number as text) are gathered in `Platform`.
 */
module JsValues {

  /** A value stored in a feature's attribute bag. OpenLayers keeps the geometry in the
      same bag, under the feature's geometry name, so a point is a value too. */
  datatype Value =
    | Undefined
    | Null
    | Bool(b: bool)
    | Num(x: real)
    | Str(s: string)
    | PointGeom(coordinates: seq<real>)

  /** Opaque host functions: `toLonLat`/`fromLonLat` of OpenLayers (EPSG:3857 <-> EPSG:4326)
      and JavaScript's number-to-string conversion. */
  datatype Platform = Platform(
    toLonLat: seq<real> -> seq<real>,
    fromLonLat: seq<real> -> seq<real>,
    numberText: real -> string)

  /** JavaScript truthiness: `undefined`, `null`, `false`, `0` and `""` are falsy. */
  predicate Truthy(v: Value) {
    match v
    case Undefined => false
    case Null => false
    case Bool(b) => b
    case Num(x) => x != 0.0
    case Str(s) => s != ""
    case PointGeom(_) => true
  }

  /** The values `??` replaces: `undefined` and `null`. */
  predicate Nullish(v: Value) {
    v.Undefined? || v.Null?
  }

  /** `v || d` */
  function Or(v: Value, d: Value): Value {
    if Truthy(v) then v else d
  }

  /** `v ?? d` */
  function Coalesce(v: Value, d: Value): Value {
    if Nullish(v) then d else v
  }

  /** `String(v)`, which is also what a template literal `${v}` produces. */
  function ToText(v: Value, p: Platform): string {
    match v
    case Undefined => "undefined"
    case Null => "null"
    case Bool(b) => if b then "true" else "false"
    case Num(x) => p.numberText(x)
    case Str(s) => s
    case PointGeom(_) => "[object Object]"
  }

  /** `pat` occurs in `s` starting at index `i`. */
  predicate OccursAt(s: string, pat: string, i: nat) {
    i + |pat| <= |s| && s[i..i + |pat|] == pat
  }

  /** `s.includes(pat)`, scanning from the left. */
  function Includes(s: string, pat: string): bool
    decreases |s|
  {
    if |s| < |pat| then false
    else if s[..|pat|] == pat then true
    else Includes(s[1..], pat)
  }

  /** The scan finds `pat` exactly when it occurs somewhere in `s`. */
  lemma {:induction false} IncludesIff(s: string, pat: string)
    ensures Includes(s, pat) <==> exists i: nat :: OccursAt(s, pat, i)
    decreases |s|
  {
    if |s| < |pat| {
    } else if s[..|pat|] == pat {
      assert OccursAt(s, pat, 0);
    } else {
      IncludesIff(s[1..], pat);
      if Includes(s[1..], pat) {
        var i: nat :| OccursAt(s[1..], pat, i);
        assert s[1..][i..i + |pat|] == s[i + 1..i + 1 + |pat|];
        assert OccursAt(s, pat, i + 1);
      }
      if exists j: nat :: OccursAt(s, pat, j) {
        var j: nat :| OccursAt(s, pat, j);
        assert j != 0;
        assert s[1..][j - 1..j - 1 + |pat|] == s[j..j + |pat|];
        assert OccursAt(s[1..], pat, j - 1);
      }
    }
  }

  /** Whatever surrounds it, an occurrence of `pat` is found. */
  lemma IncludesInfix(pre: string, pat: string, post: string)
    ensures Includes(pre + pat + post, pat)
  {
    var s := pre + pat + post;
    assert s[|pre|..|pre| + |pat|] == pat;
    assert OccursAt(s, pat, |pre|);
    IncludesIff(s, pat);
  }

  /** The index of the first `c` in `s`. */
  function IndexOf(s: string, c: char): (i: nat)
    requires c in s
    ensures i < |s| && s[i] == c && c !in s[..i]
  {
    if s[0] == c then 0
    else
      var k := IndexOf(s[1..], c);
      assert s[..k + 1] == [s[0]] + s[1..][..k];
      k + 1
  }

  /** The longest prefix of `s` free of `c`. */
  function TakeUntil(s: string, c: char): (t: string)
    ensures t <= s && c !in t
    ensures |t| == |s| || s[|t|] == c
  {
    if s == [] || s[0] == c then []
    else
      var t := TakeUntil(s[1..], c);
      assert [s[0]] + t <= s by {
        assert s == [s[0]] + s[1..];
      }
      [s[0]] + t
  }

  /** `s.split(c)` for a one-character separator `c`: the pieces between separators,
      including the empty ones at either end. */
  function Split(s: string, c: char): (parts: seq<string>)
    ensures |parts| > 0
  {
    if s == [] then [""]
    else
      var rest := Split(s[1..], c);
      if s[0] == c then [""] + rest
      else [[s[0]] + rest[0]] + rest[1..]
  }

  /** Splitting a string free of the separator gives the string back as the only piece. */
  lemma {:induction false} SplitWithoutSeparator(s: string, c: char)
    requires c !in s
    ensures Split(s, c) == [s]
  {
    if s != [] {
      assert c !in s[1..];
      SplitWithoutSeparator(s[1..], c);
      assert s == [s[0]] + s[1..];
    }
  }

  /** The first piece of a split is everything before the first separator. */
  lemma {:induction false} SplitFirstPiece(s: string, c: char)
    ensures Split(s, c)[0] == TakeUntil(s, c)
  {
    if s != [] && s[0] != c {
      SplitFirstPiece(s[1..], c);
    }
  }

  /** Once the separator occurs there is a second piece, and it is the text between the
      first separator and the next one (or the end). */
  lemma {:induction false} SplitSecondPiece(s: string, c: char)
    requires c in s
    ensures |Split(s, c)| >= 2
    ensures Split(s, c)[1] == TakeUntil(s[IndexOf(s, c) + 1..], c)
  {
    if s[0] == c {
      SplitFirstPiece(s[1..], c);
    } else {
      assert c in s[1..] by {
        var i := IndexOf(s, c);
        assert s[i] == s[1..][i - 1];
      }
      SplitSecondPiece(s[1..], c);
      assert s[1..][IndexOf(s[1..], c) + 1..] == s[IndexOf(s, c) + 1..];
    }
  }

  /** Searching for a one-character pattern is membership. */
  lemma IncludesChar(s: string, c: char)
    ensures Includes(s, [c]) <==> c in s
  {
    IncludesIff(s, [c]);
    if c in s {
      var i :| 0 <= i < |s| && s[i] == c;
      assert OccursAt(s, [c], i);
    }
    if Includes(s, [c]) {
      var i: nat :| OccursAt(s, [c], i);
      assert s[i] == s[i..i + 1][0];
    }
  }
}
