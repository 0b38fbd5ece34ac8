/**
 * `escapeXml` (figma2xliff.js:109-119): the characters `&`, `<`, `>`, `"`
 * and `'` are replaced with the five predefined entities of section 4.6 of
 * the XML 1.0 specification, so none of them is left to end an element's
 * text or a quoted attribute value early. Other characters, C0 controls
 * included, pass through unchanged. The replacements run one after the other, `&` first, so
 * no entity produced by a later replacement is escaped again.
 */
module XmlEscape {
  import opened JsObject
  import opened Text

  /** `s.replace(/c/g, rep)`: every occurrence of `c` becomes `rep`. */
  function ReplaceAll(s: string, c: char, rep: string): (r: string)
    ensures forall d :: d in r ==> d in rep || (d in s && d != c)
  {
    if s == [] then []
    else
      var rest := ReplaceAll(s[1..], c, rep);
      assert forall d :: d in s[1..] ==> d in s;
      (if s[0] == c then rep else [s[0]]) + rest
  }

  /** Replacement works piece by piece. */
  lemma {:induction false} ReplaceAllConcat(a: string, b: string, c: char, rep: string)
    ensures ReplaceAll(a + b, c, rep) == ReplaceAll(a, c, rep) + ReplaceAll(b, c, rep)
  {
    if a == [] {
      assert a + b == b;
    } else {
      assert (a + b)[1..] == a[1..] + b;
      ReplaceAllConcat(a[1..], b, c, rep);
    }
  }

  /** The chain of replacements of lines 113-118, in the order written there. */
  function EscapeText(s: string): (r: string)
    ensures '<' !in r && '>' !in r && '"' !in r && '\'' !in r
  {
    var amp := ReplaceAll(s, '&', "&amp;");
    var lt := ReplaceAll(amp, '<', "&lt;");
    var gt := ReplaceAll(lt, '>', "&gt;");
    var quot := ReplaceAll(gt, '"', "&quot;");
    ReplaceAll(quot, '\'', "&apos;")
  }

  /** How XML writes one character of text: a predefined entity or the character itself. */
  function Entity(c: char): string
  {
    match c
    case '&' => "&amp;"
    case '<' => "&lt;"
    case '>' => "&gt;"
    case '"' => "&quot;"
    case '\'' => "&apos;"
    case _ => [c]
  }

  /** Reference escaping: each character replaced by its entity. */
  function EscapeChars(s: string): string
  {
    if s == [] then [] else Entity(s[0]) + EscapeChars(s[1..])
  }

  /** The chain of replacements works piece by piece. */
  lemma EscapeTextConcat(a: string, b: string)
    ensures EscapeText(a + b) == EscapeText(a) + EscapeText(b)
  {
    var amp := ReplaceAll(a, '&', "&amp;");
    var ampB := ReplaceAll(b, '&', "&amp;");
    ReplaceAllConcat(a, b, '&', "&amp;");
    var lt := ReplaceAll(amp, '<', "&lt;");
    var ltB := ReplaceAll(ampB, '<', "&lt;");
    ReplaceAllConcat(amp, ampB, '<', "&lt;");
    var gt := ReplaceAll(lt, '>', "&gt;");
    var gtB := ReplaceAll(ltB, '>', "&gt;");
    ReplaceAllConcat(lt, ltB, '>', "&gt;");
    var quot := ReplaceAll(gt, '"', "&quot;");
    var quotB := ReplaceAll(gtB, '"', "&quot;");
    ReplaceAllConcat(gt, gtB, '"', "&quot;");
    ReplaceAllConcat(quot, quotB, '\'', "&apos;");
  }

  /** A replacement that does not apply leaves the text as it is. */
  lemma {:induction false} ReplaceAllAbsent(s: string, c: char, rep: string)
    requires c !in s
    ensures ReplaceAll(s, c, rep) == s
  {
    if s != [] {
      ReplaceAllAbsent(s[1..], c, rep);
      assert [s[0]] + s[1..] == s;
    }
  }

  /** A replacement on a single character. */
  lemma ReplaceAllChar(c: char, d: char, rep: string)
    ensures ReplaceAll([c], d, rep) == if c == d then rep else [c]
  {
    assert [c][1..] == [];
    var x := if c == d then rep else [c];
    assert x + [] == x;
  }

  /** The chain of replacements, written as its stages. */
  lemma EscapeTextStages(s: string, amp: string, lt: string, gt: string, quot: string)
    requires amp == ReplaceAll(s, '&', "&amp;") && lt == ReplaceAll(amp, '<', "&lt;")
    requires gt == ReplaceAll(lt, '>', "&gt;") && quot == ReplaceAll(gt, '"', "&quot;")
    ensures EscapeText(s) == ReplaceAll(quot, '\'', "&apos;")
  {
  }

  /**
   * One stage of the chain on a character that is still itself, or that an
   * earlier stage already replaced by its entity: the stage for `d` writes
   * the entity of `c` when `c` is `d`, and leaves the text alone otherwise.
   * An entity holds none of `<`, `>`, `"` and `'`, so only the `&` stage,
   * which comes first, could disturb one.
   */
  lemma EscapeStage(c: char, x: string, d: char)
    requires d == '&' || d == '<' || d == '>' || d == '"' || d == '\''
    requires x == [c] || (x == Entity(c) && d != '&')
    ensures ReplaceAll(x, d, Entity(d)) == if x == [c] && c == d then Entity(d) else x
  {
    if x == [c] {
      ReplaceAllChar(c, d, Entity(d));
    } else {
      assert d !in Entity(c);
      ReplaceAllAbsent(x, d, Entity(d));
    }
  }

  /** On one character the chain of replacements produces its entity. */
  lemma EscapeTextChar(c: char)
    ensures EscapeText([c]) == Entity(c)
  {
    var amp := ReplaceAll([c], '&', "&amp;");
    EscapeStage(c, [c], '&');
    var lt := ReplaceAll(amp, '<', "&lt;");
    EscapeStage(c, amp, '<');
    var gt := ReplaceAll(lt, '>', "&gt;");
    EscapeStage(c, lt, '>');
    var quot := ReplaceAll(gt, '"', "&quot;");
    EscapeStage(c, gt, '"');
    EscapeStage(c, quot, '\'');
    EscapeTextStages([c], amp, lt, gt, quot);
  }

  /** The chain of replacements, `&` first, is the same as escaping each character. */
  lemma {:induction false} EscapeTextIsPerChar(s: string)
    ensures EscapeText(s) == EscapeChars(s)
  {
    if s == [] {
      assert EscapeText(s) == [];
    } else {
      assert s == [s[0]] + s[1..];
      EscapeTextConcat([s[0]], s[1..]);
      EscapeTextChar(s[0]);
      EscapeTextIsPerChar(s[1..]);
    }
  }

  /** `t` begins with one of the five predefined entities. */
  predicate StartsWithEntity(t: string)
  {
    StartsWith(t, "&amp;") || StartsWith(t, "&lt;") || StartsWith(t, "&gt;") ||
    StartsWith(t, "&quot;") || StartsWith(t, "&apos;")
  }

  /**
   * The decoder of the five predefined entities: each entity becomes its
   * character, and everything else is kept as it stands.
   */
  function Unescape(s: string): string
    decreases |s|
  {
    if s == [] then []
    else if s[0] != '&' then [s[0]] + Unescape(s[1..])
    else if StartsWith(s, "&amp;") then "&" + Unescape(s[5..])
    else if StartsWith(s, "&lt;") then "<" + Unescape(s[4..])
    else if StartsWith(s, "&gt;") then ">" + Unescape(s[4..])
    else if StartsWith(s, "&quot;") then "\"" + Unescape(s[6..])
    else if StartsWith(s, "&apos;") then "'" + Unescape(s[6..])
    else [s[0]] + Unescape(s[1..])
  }

  /** Reading back one escaped character. */
  lemma UnescapeEntity(c: char, x: string)
    ensures Unescape(Entity(c) + x) == [c] + Unescape(x)
  {
    var s := Entity(c) + x;
    var e := Entity(c);
    assert s[..|e|] == e && s[|e|..] == x;
    if c == '<' {
      assert !StartsWith(s, "&amp;") by { assert s[1] == 'l'; }
    } else if c == '>' {
      assert !StartsWith(s, "&amp;") && !StartsWith(s, "&lt;") by { assert s[1] == 'g'; }
    } else if c == '"' {
      assert !StartsWith(s, "&amp;") && !StartsWith(s, "&lt;") && !StartsWith(s, "&gt;") by {
        assert s[1] == 'q';
      }
    } else if c == '\'' {
      assert !StartsWith(s, "&amp;") by { assert s[2] == 'p'; }
      assert !StartsWith(s, "&lt;") && !StartsWith(s, "&gt;") && !StartsWith(s, "&quot;") by {
        assert s[1] == 'a';
      }
    }
  }

  /** Decoding the entities returns the original text. */
  lemma {:induction false} UnescapeEscapeChars(s: string)
    ensures Unescape(EscapeChars(s)) == s
  {
    if s != [] {
      UnescapeEntity(s[0], EscapeChars(s[1..]));
      UnescapeEscapeChars(s[1..]);
      assert [s[0]] + s[1..] == s;
    }
  }

  /** In escaped text every `&` begins a predefined entity. */
  lemma {:induction false} AmpersandsBeginEntities(s: string)
    ensures forall i :: 0 <= i < |EscapeChars(s)| && EscapeChars(s)[i] == '&' ==>
              StartsWithEntity(EscapeChars(s)[i..])
  {
    if s != [] {
      var e := Entity(s[0]);
      var rest := EscapeChars(s[1..]);
      var r := EscapeChars(s);
      assert r == e + rest;
      AmpersandsBeginEntities(s[1..]);
      forall i | 0 <= i < |r| && r[i] == '&' ensures StartsWithEntity(r[i..]) {
        if i < |e| {
          assert e[i] == '&';
          assert i == 0 && r[..|e|] == e;
        } else {
          assert r[i..] == rest[i - |e|..];
        }
      }
    }
  }

  /** `str ?? ''` of line 111: a missing value reads as the empty string. */
  function OrEmpty(v: Option<string>): string
  {
    if v.Some? then v.value else ""
  }

  /**
   * `escapeXml(str)` for a string value or a missing one: `null` and
   * `undefined` become the empty string (line 111). The result contains no
   * `<`, `>`, `"` or `'`.
   */
  function EscapeXml(v: Option<string>): (r: string)
    ensures v == None ==> r == ""
    ensures '<' !in r && '>' !in r && '"' !in r && '\'' !in r
  {
    EscapeText(OrEmpty(v))
  }

  /** Decoding the output of `escapeXml` gives back the value; a missing one reads as empty. */
  lemma UnescapeEscapeXml(v: Option<string>)
    ensures Unescape(EscapeXml(v)) == OrEmpty(v)
  {
    var s := OrEmpty(v);
    EscapeTextIsPerChar(s);
    UnescapeEscapeChars(s);
  }

  /** In the output of `escapeXml` every `&` begins one of the five entities. */
  lemma EscapeXmlEntities(v: Option<string>)
    ensures var r := EscapeXml(v);
            forall i :: 0 <= i < |r| && r[i] == '&' ==> StartsWithEntity(r[i..])
  {
    var s := OrEmpty(v);
    EscapeTextIsPerChar(s);
    AmpersandsBeginEntities(s);
  }
}
