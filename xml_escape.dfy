/**
 * `escapeXml` of the GeoServer client: five global substitutions, one per XML
 * metacharacter, ampersand first, producing the predefined entities of XML 1.0
 * (section 4.6, Predefined Entities). The chain is proved equal to a per-character
 * entity table, and from that: it is undone by entity decoding, it leaves no raw
 * markup character behind, it is the identity on plain text and it never shortens.
 */
module XmlEscape {

  /** `s.replace(/c/g, rep)` where `rep` holds no `$` pattern. */
  function ReplaceAll(s: string, c: char, rep: string): string
  {
    if s == [] then []
    else (if s[0] == c then rep else [s[0]]) + ReplaceAll(s[1..], c, rep)
  }

  /** The chained replacements, in the order the source applies them: `&` first, then
      the four markup characters. The result is every character replaced by its entity. */
  function EscapeXml(s: string): (r: string)
    ensures r == EscapeEach(s)
  {
    ChainIsEntityTable(s);
    EscapeMarkup(ReplaceAll(s, '&', "&amp;"))
  }

  /** The last four links of the chain: `<`, `>`, `"`, `'`. */
  function EscapeMarkup(s: string): string
  {
    ReplaceAll(ReplaceAll(ReplaceAll(ReplaceAll(
      s, '<', "&lt;"), '>', "&gt;"), '"', "&quot;"), '\'', "&apos;")
  }

  /** The five characters the escaping handles. */
  predicate IsMeta(c: char) {
    c == '&' || c == '<' || c == '>' || c == '"' || c == '\''
  }

  /** Text with none of the five metacharacters. */
  predicate Plain(s: string) {
    forall i :: 0 <= i < |s| ==> !IsMeta(s[i])
  }

  /** The predefined entity standing for one character (the character itself otherwise). */
  function Entity(c: char): string {
    match c
    case '&' => "&amp;"
    case '<' => "&lt;"
    case '>' => "&gt;"
    case '"' => "&quot;"
    case '\'' => "&apos;"
    case _ => [c]
  }

  /** Reference definition: every character replaced by its entity, independently. */
  function EscapeEach(s: string): string {
    if s == [] then [] else Entity(s[0]) + EscapeEach(s[1..])
  }

  /** Entity decoding for the five predefined entities; anything else is kept. */
  function Unescape(s: string): string
    decreases |s|
  {
    if s == [] then []
    else if "&amp;" <= s then "&" + Unescape(s[5..])
    else if "&lt;" <= s then "<" + Unescape(s[4..])
    else if "&gt;" <= s then ">" + Unescape(s[4..])
    else if "&quot;" <= s then "\"" + Unescape(s[6..])
    else if "&apos;" <= s then "'" + Unescape(s[6..])
    else [s[0]] + Unescape(s[1..])
  }

  /** A predefined entity starts at index `i` of `s`. */
  predicate EntityAt(s: string, i: nat)
    requires i <= |s|
  {
    var t := s[i..];
    "&amp;" <= t || "&lt;" <= t || "&gt;" <= t || "&quot;" <= t || "&apos;" <= t
  }

  /** No raw `<`, `>`, `"` or `'`, and every `&` opens a predefined entity. */
  predicate WellEscaped(s: string) {
    forall i :: 0 <= i < |s| ==>
      (!(s[i] == '<' || s[i] == '>' || s[i] == '"' || s[i] == '\'') && (s[i] == '&' ==> EntityAt(s, i)))
  }

  lemma {:induction false} ReplaceAllAppend(a: string, b: string, c: char, rep: string)
    ensures ReplaceAll(a + b, c, rep) == ReplaceAll(a, c, rep) + ReplaceAll(b, c, rep)
  {
    if a == [] {
      assert a + b == b;
    } else {
      assert (a + b)[0] == a[0];
      assert (a + b)[1..] == a[1..] + b;
      ReplaceAllAppend(a[1..], b, c, rep);
    }
  }

  lemma {:induction false} ReplaceAllAbsent(s: string, c: char, rep: string)
    requires c !in s
    ensures ReplaceAll(s, c, rep) == s
  {
    if s != [] {
      assert c !in s[1..];
      ReplaceAllAbsent(s[1..], c, rep);
      assert s == [s[0]] + s[1..];
    }
  }

  lemma ReplaceAllOne(x: char, c: char, rep: string)
    ensures ReplaceAll([x], c, rep) == if x == c then rep else [x]
  {
    assert [x][1..] == [];
  }

  lemma EscapeMarkupAppend(a: string, b: string)
    ensures EscapeMarkup(a + b) == EscapeMarkup(a) + EscapeMarkup(b)
  {
    var a1, b1 := ReplaceAll(a, '<', "&lt;"), ReplaceAll(b, '<', "&lt;");
    ReplaceAllAppend(a, b, '<', "&lt;");
    var a2, b2 := ReplaceAll(a1, '>', "&gt;"), ReplaceAll(b1, '>', "&gt;");
    ReplaceAllAppend(a1, b1, '>', "&gt;");
    var a3, b3 := ReplaceAll(a2, '"', "&quot;"), ReplaceAll(b2, '"', "&quot;");
    ReplaceAllAppend(a2, b2, '"', "&quot;");
    ReplaceAllAppend(a3, b3, '\'', "&apos;");
  }

  /** The chain distributes over concatenation. */
  lemma ChainAppend(a: string, b: string)
    ensures EscapeMarkup(ReplaceAll(a + b, '&', "&amp;")) ==
      EscapeMarkup(ReplaceAll(a, '&', "&amp;")) + EscapeMarkup(ReplaceAll(b, '&', "&amp;"))
  {
    ReplaceAllAppend(a, b, '&', "&amp;");
    EscapeMarkupAppend(ReplaceAll(a, '&', "&amp;"), ReplaceAll(b, '&', "&amp;"));
  }

  /** One substitution applied to a single character or to text without that character. */
  lemma ReplaceAllStage(s: string, x: char, c: char, rep: string)
    requires s == [x] || c !in s
    ensures ReplaceAll(s, c, rep) == if s == [x] && x == c then rep else s
  {
    if s == [x] {
      ReplaceAllOne(x, c, rep);
    } else {
      ReplaceAllAbsent(s, c, rep);
    }
  }

  /** Text free of the four markup characters passes the last four links unchanged. */
  lemma EscapeMarkupFixes(s: string)
    requires '<' !in s && '>' !in s && '"' !in s && '\'' !in s
    ensures EscapeMarkup(s) == s
  {
    ReplaceAllAbsent(s, '<', "&lt;");
    ReplaceAllAbsent(s, '>', "&gt;");
    ReplaceAllAbsent(s, '"', "&quot;");
    ReplaceAllAbsent(s, '\'', "&apos;");
  }

  /** On one character other than `&` the last four links give its entity, and the entity
      one link introduces is left alone by the later ones. */
  lemma EscapeMarkupChar(x: char)
    requires x != '&'
    ensures EscapeMarkup([x]) == Entity(x)
  {
    var s1 := ReplaceAll([x], '<', "&lt;");
    ReplaceAllStage([x], x, '<', "&lt;");
    if x == '<' {
      ReplaceAllAbsent(s1, '>', "&gt;");
      ReplaceAllAbsent(s1, '"', "&quot;");
      ReplaceAllAbsent(s1, '\'', "&apos;");
    } else {
      var s2 := ReplaceAll(s1, '>', "&gt;");
      ReplaceAllStage(s1, x, '>', "&gt;");
      if x == '>' {
        ReplaceAllAbsent(s2, '"', "&quot;");
        ReplaceAllAbsent(s2, '\'', "&apos;");
      } else {
        var s3 := ReplaceAll(s2, '"', "&quot;");
        ReplaceAllStage(s2, x, '"', "&quot;");
        if x == '"' {
          ReplaceAllAbsent(s3, '\'', "&apos;");
        } else {
          ReplaceAllStage(s3, x, '\'', "&apos;");
        }
      }
    }
  }

  /** On one character the chain gives that character's entity: `&` goes first, so the
      ampersands the later links introduce are never escaped again. */
  lemma ChainChar(x: char)
    ensures EscapeMarkup(ReplaceAll([x], '&', "&amp;")) == Entity(x)
  {
    ReplaceAllStage([x], x, '&', "&amp;");
    if x == '&' {
      EscapeMarkupFixes("&amp;");
    } else {
      EscapeMarkupChar(x);
    }
  }

  /** The substitution chain agrees with the per-character entity table. */
  lemma {:induction false} ChainIsEntityTable(s: string)
    ensures EscapeMarkup(ReplaceAll(s, '&', "&amp;")) == EscapeEach(s)
  {
    if s == [] {
      assert EscapeMarkup(ReplaceAll(s, '&', "&amp;")) == [];
    } else {
      assert s == [s[0]] + s[1..];
      ChainAppend([s[0]], s[1..]);
      ChainChar(s[0]);
      ChainIsEntityTable(s[1..]);
    }
  }

  /** Escaping distributes over concatenation. */
  lemma EscapeXmlAppend(a: string, b: string)
    ensures EscapeXml(a + b) == EscapeXml(a) + EscapeXml(b)
  {
    ChainAppend(a, b);
  }

  lemma UnescapeEntity(c: char, rest: string)
    ensures Unescape(Entity(c) + rest) == [c] + Unescape(rest)
  {
    match c
    case '&' => UnescapeAmp(rest);
    case '<' => UnescapeLt(rest);
    case '>' => UnescapeGt(rest);
    case '"' => UnescapeQuot(rest);
    case '\'' => UnescapeApos(rest);
    case _ => UnescapePlain(c, rest);
  }

  lemma UnescapeAmp(rest: string)
    ensures Unescape("&amp;" + rest) == "&" + Unescape(rest)
  {
    var t := "&amp;" + rest;
    assert "&amp;" <= t && t[5..] == rest;
  }

  lemma UnescapeLt(rest: string)
    ensures Unescape("&lt;" + rest) == "<" + Unescape(rest)
  {
    var t := "&lt;" + rest;
    assert t[1] == 'l';
    assert "&lt;" <= t && t[4..] == rest;
  }

  lemma UnescapeGt(rest: string)
    ensures Unescape("&gt;" + rest) == ">" + Unescape(rest)
  {
    var t := "&gt;" + rest;
    assert t[1] == 'g';
    assert "&gt;" <= t && t[4..] == rest;
  }

  lemma UnescapeQuot(rest: string)
    ensures Unescape("&quot;" + rest) == "\"" + Unescape(rest)
  {
    var t := "&quot;" + rest;
    assert t[1] == 'q';
    assert "&quot;" <= t && t[6..] == rest;
  }

  lemma UnescapeApos(rest: string)
    ensures Unescape("&apos;" + rest) == "'" + Unescape(rest)
  {
    var t := "&apos;" + rest;
    assert t[1] == 'a' && t[2] == 'p';
    assert "&apos;" <= t && t[6..] == rest;
  }

  lemma UnescapePlain(c: char, rest: string)
    requires !IsMeta(c)
    ensures Unescape([c] + rest) == [c] + Unescape(rest)
  {
    var t := [c] + rest;
    assert t[0] == c && t[1..] == rest;
  }

  lemma {:induction false} UnescapeEscapeEach(s: string)
    ensures Unescape(EscapeEach(s)) == s
  {
    if s != [] {
      UnescapeEntity(s[0], EscapeEach(s[1..]));
      UnescapeEscapeEach(s[1..]);
      assert s == [s[0]] + s[1..];
    }
  }

  /** Decoding the escaped text gives the original text back exactly. */
  lemma EscapeXmlRoundTrip(s: string)
    ensures Unescape(EscapeXml(s)) == s
  {
    UnescapeEscapeEach(s);
  }

  /** Escaping is injective: two texts that escape alike are the same text. */
  lemma EscapeXmlInjective(s: string, t: string)
    requires EscapeXml(s) == EscapeXml(t)
    ensures s == t
  {
    EscapeXmlRoundTrip(s);
    EscapeXmlRoundTrip(t);
  }

  lemma WellEscapedAppend(a: string, b: string)
    requires WellEscaped(a) && WellEscaped(b)
    ensures WellEscaped(a + b)
  {
    var s := a + b;
    forall i | 0 <= i < |s| && s[i] == '&'
      ensures EntityAt(s, i)
    {
      if i < |a| {
        assert a[i] == '&';
        assert a[i..] <= s[i..];
      } else {
        assert b[i - |a|] == '&';
        assert s[i..] == b[i - |a|..];
      }
    }
  }

  lemma WellEscapedEntity(c: char)
    ensures WellEscaped(Entity(c))
  {
    var e := Entity(c);
    if c == '&' {
      assert e[0..] == "&amp;";
    } else if IsMeta(c) {
      assert e[0..] == e;
    }
  }

  lemma {:induction false} WellEscapedEscapeEach(s: string)
    ensures WellEscaped(EscapeEach(s))
  {
    if s != [] {
      WellEscapedEntity(s[0]);
      WellEscapedEscapeEach(s[1..]);
      WellEscapedAppend(Entity(s[0]), EscapeEach(s[1..]));
    }
  }

  /** The escaped text holds no raw `<`, `>`, `"` or `'`, and each `&` in it begins one of
      `&amp;`, `&lt;`, `&gt;`, `&quot;`, `&apos;`. */
  lemma EscapeXmlWellEscaped(s: string)
    ensures WellEscaped(EscapeXml(s))
  {
    WellEscapedEscapeEach(s);
  }

  lemma {:induction false} EscapeEachLength(s: string)
    ensures |EscapeEach(s)| >= |s|
    ensures |EscapeEach(s)| == |s| <==> Plain(s)
    ensures Plain(s) ==> EscapeEach(s) == s
  {
    if s != [] {
      EscapeEachLength(s[1..]);
      assert Plain(s) <==> !IsMeta(s[0]) && Plain(s[1..]) by {
        if !IsMeta(s[0]) && Plain(s[1..]) {
          forall i | 0 <= i < |s| ensures !IsMeta(s[i]) {
            if i > 0 { assert s[i] == s[1..][i - 1]; }
          }
        }
        if Plain(s) {
          forall i | 0 <= i < |s[1..]| ensures !IsMeta(s[1..][i]) {
            assert s[1..][i] == s[i + 1];
          }
        }
      }
      assert s == [s[0]] + s[1..];
    }
  }

  /** On text free of metacharacters escaping changes nothing. */
  lemma EscapeXmlPlainIdentity(s: string)
    requires Plain(s)
    ensures EscapeXml(s) == s
  {
    EscapeEachLength(s);
  }

  /** The output is never shorter than the input, and exactly as long only on plain text. */
  lemma EscapeXmlLength(s: string)
    ensures |EscapeXml(s)| >= |s|
    ensures |EscapeXml(s)| == |s| <==> Plain(s)
  {
    EscapeEachLength(s);
  }

  /** The same five substitutions with the ampersand last, for contrast. */
  function EscapeAmpersandLast(s: string): string
  {
    ReplaceAll(EscapeMarkup(s), '&', "&amp;")
  }

  /** Why ampersand goes first: with it last, the entity made for any other metacharacter
      is escaped a second time and decoding no longer gives the character back. */
  lemma AmpersandMustComeFirst(x: char)
    requires IsMeta(x) && x != '&'
    ensures Unescape(EscapeAmpersandLast([x])) != [x]
    ensures Unescape(EscapeXml([x])) == [x]
  {
    EscapeXmlRoundTrip([x]);
    EscapeMarkupChar(x);
    var ent := Entity(x);
    assert ent == "&" + ent[1..];
    ReplaceAllAppend("&", ent[1..], '&', "&amp;");
    ReplaceAllOne('&', '&', "&amp;");
    var e := EscapeAmpersandLast([x]);
    assert e == "&amp;" + ReplaceAll(ent[1..], '&', "&amp;");
    assert "&amp;" <= e;
    assert Unescape(e) == "&" + Unescape(e[5..]);
  }
}
