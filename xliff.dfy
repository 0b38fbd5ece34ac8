/**
 * The XLIFF 2.0 serializer, `generateXliff2` (figma2xliff.js:121-151):
 * the document for one target locale is a fixed header, one `<unit>` per
 * entry of `translations` in insertion order, and a fixed footer. Each
 * unit carries the escaped source and target text; when the entry has a
 * non-empty plural value for the target locale both texts take the ICU
 * plural form `{VAR_PLURAL, plural, =1 {…} other {…} }`.
 *
 * A reader for exactly this layout recovers, from a document, the id and
 * the unescaped source and target text of every unit; reading back a
 * generated document gives one unit per entry, in order.
 */
module Xliff {
  import opened JsObject
  import opened Text
  import opened XmlEscape
  import opened TranslationModel

  /** The XML declaration and the opening `xliff` and `file` elements (lines 122-125). */
  const Header: string :=
    "<?xml version=\"1.0\" encoding=\"UTF-8\"?>\n" +
    "<xliff version=\"2.0\" xmlns=\"urn:oasis:names:tc:xliff:document:2.0\">\n" +
    "  <file id=\"translations\" original=\"generated\" datatype=\"html\">\n"

  /** The closing `file` and `xliff` elements (lines 147-148). */
  const Footer: string := "  </file>\n</xliff>"

  /**
   * The fixed pieces of one unit (lines 138-144), around its id, source
   * and target. The first character of the pieces that follow a variable
   * part is written apart: it is the character a reader stops at.
   */
  const UnitOpen: string := "    <unit id=\""
  const UnitMid: string := "\"" + " datatype=\"html\">\n      <segment>\n        <source>"
  const SourceClose: string := "<" + "/source>\n        <target>"
  const UnitClose: string := "<" + "/target>\n      </segment>\n    </unit>\n"

  /** A value interpolated into a template literal: a missing one reads `undefined`. */
  function Interp(v: Option<string>): string
  {
    if v.Some? then v.value else "undefined"
  }

  /** The ICU plural message of lines 131 and 135. */
  function Icu(one: string, other: string): string
  {
    "{VAR_PLURAL, plural, =1 {" + one + "} other {" + other + "} }"
  }

  /** `entry.plural && entry.plural[targetLocale]` (line 128): a plural map with a non-empty value for the locale. */
  predicate HasPlural(e: Entry, locale: string)
  {
    e.plural.Some? &&
    match Get(e.plural.value, locale)
    case Some(s) => s != ""
    case None => false
  }

  /** `sourceText` (lines 130-132). */
  function SourceText(e: Entry, locale: string): Option<string>
  {
    if HasPlural(e, locale) then Some(Icu(Interp(Get(e.fields, "source")), Interp(Get(e.plural.value, "source"))))
    else Get(e.fields, "source")
  }

  /** `targetText` (lines 134-136). */
  function TargetText(e: Entry, locale: string): Option<string>
  {
    if HasPlural(e, locale) then Some(Icu(Interp(Get(e.fields, locale)), Interp(Get(e.plural.value, locale))))
    else Get(e.fields, locale)
  }

  /** The unit element for one entry (lines 138-144); the id is written as it is. */
  function Unit(id: string, e: Entry, locale: string): string
  {
    UnitOpen + id + UnitMid + EscapeXml(SourceText(e, locale)) +
    SourceClose + EscapeXml(TargetText(e, locale)) + UnitClose
  }

  /**
   * The ICU form depends only on a non-empty plural value for the target
   * locale: without one, the unit is the one the entry would have with no
   * plural map at all.
   */
  lemma UnitWithoutPluralValue(id: string, e: Entry, locale: string)
    requires !HasPlural(e, locale)
    ensures Unit(id, e, locale) == Unit(id, e.(plural := None), locale)
  {
  }

  /** Without a plural value and a value for the target locale, the `target` element is empty. */
  lemma MissingTargetEmpty(id: string, e: Entry, locale: string)
    requires !HasPlural(e, locale) && locale !in Keys(e.fields)
    ensures Unit(id, e, locale) ==
            UnitOpen + id + UnitMid + EscapeXml(Get(e.fields, "source")) + SourceClose + UnitClose
  {
  }

  /**
   * With a non-empty plural value for the target locale, a missing value
   * for that locale is interpolated into the ICU message as `undefined`
   * (line 135), as a JavaScript template literal does.
   */
  lemma PluralMissingTargetUndefined(e: Entry, locale: string)
    requires HasPlural(e, locale) && locale !in Keys(e.fields)
    ensures TargetText(e, locale) == Some(Icu("undefined", Get(e.plural.value, locale).value))
  {
  }

  /** The texts of a sequence of pieces, one after the other. */
  function Concat(pieces: seq<string>): string
  {
    if pieces == [] then "" else Concat(pieces[..|pieces| - 1]) + pieces[|pieces| - 1]
  }

  /** The units of all entries, in the order of `Object.entries(translations)`. */
  function Units(t: Translations, locale: string): (units: seq<string>)
    ensures |units| == |t|
    ensures forall i :: 0 <= i < |t| ==> units[i] == Unit(t[i].0, t[i].1, locale)
  {
    seq(|t|, i requires 0 <= i < |t| => Unit(t[i].0, t[i].1, locale))
  }

  /** The document `generateXliff2(translations, locale)` returns. */
  function Document(t: Translations, locale: string): string
  {
    Header + Concat(Units(t, locale)) + Footer
  }

  /** The body of the loop over the entries (lines 127-145): one entry's unit. */
  method RenderUnit(id: string, entry: Entry, targetLocale: string) returns (unit: string)
    ensures unit == Unit(id, entry, targetLocale)
  {
    var hasPlural := entry.plural.Some? && Get(entry.plural.value, targetLocale).Some? &&
                     Get(entry.plural.value, targetLocale).value != "";
    var sourceText := if hasPlural
      then Some(Icu(Interp(Get(entry.fields, "source")), Interp(Get(entry.plural.value, "source"))))
      else Get(entry.fields, "source");
    var targetText := if hasPlural
      then Some(Icu(Interp(Get(entry.fields, targetLocale)), Interp(Get(entry.plural.value, targetLocale))))
      else Get(entry.fields, targetLocale);
    assert hasPlural == HasPlural(entry, targetLocale);
    unit := UnitOpen + id + UnitMid + EscapeXml(sourceText) +
            SourceClose + EscapeXml(targetText) + UnitClose;
  }

  /** `generateXliff2` (lines 121-151): the document text grows by one unit per entry. */
  method GenerateXliff2(translations: Translations, targetLocale: string) returns (xml: string)
    ensures xml == Document(translations, targetLocale)
  {
    ghost var units := Units(translations, targetLocale);
    xml := Header;
    var i := 0;
    while i < |translations|
      invariant 0 <= i <= |translations|
      invariant xml == Header + Concat(units[..i])
    {
      var (id, entry) := translations[i];
      var unit := RenderUnit(id, entry, targetLocale);
      ConcatSnoc(Header, units, i);
      xml := xml + unit;
      i := i + 1;
    }
    assert units[..i] == units;
    xml := xml + Footer;
  }

  /** What a reader finds in one unit: its id and the unescaped source and target. */
  datatype UnitView = UnitView(id: string, source: string, target: string)

  /** What each entry should read as, in order. */
  function View(t: Translations, locale: string): (units: seq<UnitView>)
    ensures |units| == |t|
  {
    seq(|t|, i requires 0 <= i < |t| =>
      UnitView(t[i].0, OrEmpty(SourceText(t[i].1, locale)), OrEmpty(TargetText(t[i].1, locale))))
  }

  /** `s` cut before the first `c`: the part without `c`, and the rest from `c` on. */
  function SplitAt(s: string, c: char): (parts: (string, string))
    ensures parts.0 + parts.1 == s
    ensures c !in parts.0
    ensures parts.1 == [] || parts.1[0] == c
  {
    if s == [] || s[0] == c then ([], s)
    else
      var (a, b) := SplitAt(s[1..], c);
      ([s[0]] + a, b)
  }

  /** Cutting where the first `c` is. */
  lemma {:induction false} SplitAtOf(a: string, c: char, b: string)
    requires c !in a && b != [] && b[0] == c
    ensures SplitAt(a + b, c) == (a, b)
  {
    if a != [] {
      var s := a + b;
      assert s[0] == a[0] && a[0] in a;
      assert s[1..] == a[1..] + b;
      SplitAtOf(a[1..], c, b);
      assert SplitAt(s, c) == ([s[0]] + SplitAt(s[1..], c).0, SplitAt(s[1..], c).1);
      assert [a[0]] + a[1..] == a;
    } else {
      assert a + b == b;
    }
  }

  /** Reads one unit from the front of `s`, returning it and the text after it. */
  function ParseUnit(s: string): (r: Option<(UnitView, string)>)
    ensures r.Some? ==> |r.value.1| < |s|
  {
    if !StartsWith(s, UnitOpen) then None
    else
      var (id, r1) := SplitAt(s[|UnitOpen|..], '"');
      if !StartsWith(r1, UnitMid) then None
      else
        var (src, r2) := SplitAt(r1[|UnitMid|..], '<');
        if !StartsWith(r2, SourceClose) then None
        else
          var (tgt, r3) := SplitAt(r2[|SourceClose|..], '<');
          if !StartsWith(r3, UnitClose) then None
          else Some((UnitView(id, Unescape(src), Unescape(tgt)), r3[|UnitClose|..]))
  }

  /** Reads units until the text is used up; `None` if something else is found. */
  function ParseUnits(s: string): Option<seq<UnitView>>
    decreases |s|
  {
    if s == [] then Some([])
    else match ParseUnit(s)
      case None => None
      case Some((u, rest)) =>
        match ParseUnits(rest)
        case None => None
        case Some(us) => Some([u] + us)
  }

  /** Reads a whole document: the header, units, and the footer. */
  function ParseDocument(doc: string): Option<seq<UnitView>>
  {
    if StartsWith(doc, Header) && EndsWith(doc[|Header|..], Footer) then
      ParseUnits(doc[|Header|..|doc| - |Footer|])
    else None
  }

  /** A string begins with its own prefix, and what follows it is the rest. */
  lemma PrefixOf(p: string, x: string)
    ensures StartsWith(p + x, p) && (p + x)[|p|..] == x
  {
    assert (p + x)[..|p|] == p;
  }

  /** The facts about the fixed pieces of a unit that reading one relies on. */
  lemma UnitPieces()
    ensures |UnitOpen| > 0
    ensures |UnitMid| > 0 && UnitMid[0] == '"'
    ensures |SourceClose| > 0 && SourceClose[0] == '<'
    ensures |UnitClose| > 0 && UnitClose[0] == '<'
  {
  }

  /** Regrouping the concatenation a unit is made of. */
  lemma Regroup(p1: string, id: string, p2: string, a: string, p3: string, b: string, p4: string, rest: string)
    ensures p1 + id + p2 + a + p3 + b + p4 + rest == p1 + (id + (p2 + (a + (p3 + (b + (p4 + rest))))))
  {
  }

  /** One unit is read back as its id and the unescaped texts. */
  lemma ParseUnitOf(id: string, a: string, b: string, rest: string)
    requires '"' !in id && '<' !in a && '<' !in b
    ensures ParseUnit(UnitOpen + id + UnitMid + a + SourceClose + b + UnitClose + rest) ==
            Some((UnitView(id, Unescape(a), Unescape(b)), rest))
  {
    UnitPieces();
    Regroup(UnitOpen, id, UnitMid, a, SourceClose, b, UnitClose, rest);
    var x3 := UnitClose + rest;
    var x2 := SourceClose + (b + x3);
    var x1 := UnitMid + (a + x2);
    PrefixOf(UnitOpen, id + x1);
    SplitAtOf(id, '"', x1);
    PrefixOf(UnitMid, a + x2);
    SplitAtOf(a, '<', x2);
    PrefixOf(SourceClose, b + x3);
    SplitAtOf(b, '<', x3);
    PrefixOf(UnitClose, rest);
  }

  /** One more piece at the back. */
  lemma ConcatSnoc(prefix: string, pieces: seq<string>, i: int)
    requires 0 <= i < |pieces|
    ensures prefix + Concat(pieces[..i + 1]) == prefix + Concat(pieces[..i]) + pieces[i]
  {
    assert pieces[..i + 1][..i] == pieces[..i];
  }

  /** The pieces joined front to back. */
  lemma {:induction false} ConcatCons(pieces: seq<string>)
    requires pieces != []
    ensures Concat(pieces) == pieces[0] + Concat(pieces[1..])
  {
    var n := |pieces| - 1;
    if n > 0 {
      ConcatCons(pieces[..n]);
      assert pieces[..n][1..] == pieces[1..][..n - 1];
      assert pieces[1..][n - 1] == pieces[n];
    } else {
      assert pieces[1..] == [];
    }
  }

  /** A unit read at the front, then the units after it. */
  lemma ParseUnitsCons(s: string, v: UnitView, rest: string, vs: seq<UnitView>)
    requires s != [] && ParseUnit(s) == Some((v, rest)) && ParseUnits(rest) == Some(vs)
    ensures ParseUnits(s) == Some([v] + vs)
  {
  }

  /** What holds for every piece holds for the pieces after the first. */
  lemma ReadsEachTail(pieces: seq<string>, views: seq<UnitView>)
    requires |pieces| == |views| > 0
    requires forall i, rest :: 0 <= i < |pieces| ==> ParseUnit(pieces[i] + rest) == Some((views[i], rest))
    ensures forall i, rest :: 0 <= i < |pieces[1..]| ==> ParseUnit(pieces[1..][i] + rest) == Some((views[1..][i], rest))
  {
    forall i, rest | 0 <= i < |pieces[1..]| ensures ParseUnit(pieces[1..][i] + rest) == Some((views[1..][i], rest)) {
      assert pieces[1..][i] == pieces[i + 1] && views[1..][i] == views[i + 1];
    }
  }

  /** Pieces each read back as one unit, whatever follows, are read back together in order. */
  lemma {:induction false} ParseUnitsConcat(pieces: seq<string>, views: seq<UnitView>)
    requires |pieces| == |views|
    requires forall i, rest :: 0 <= i < |pieces| ==> ParseUnit(pieces[i] + rest) == Some((views[i], rest))
    ensures ParseUnits(Concat(pieces)) == Some(views)
  {
    if pieces != [] {
      ConcatCons(pieces);
      var rest := Concat(pieces[1..]);
      assert ParseUnit(pieces[0] + rest) == Some((views[0], rest));
      ReadsEachTail(pieces, views);
      ParseUnitsConcat(pieces[1..], views[1..]);
      ParseUnitsCons(pieces[0] + rest, views[0], rest, views[1..]);
      assert [views[0]] + views[1..] == views;
    }
  }

  /** The unit of every entry is read back as that entry's id and texts. */
  lemma ParseEachUnit(t: Translations, locale: string)
    requires forall i :: 0 <= i < |t| ==> '"' !in t[i].0
    ensures forall i, rest :: 0 <= i < |t| ==> ParseUnit(Units(t, locale)[i] + rest) == Some((View(t, locale)[i], rest))
  {
    forall i, rest | 0 <= i < |t| ensures ParseUnit(Units(t, locale)[i] + rest) == Some((View(t, locale)[i], rest)) {
      var (id, e) := t[i];
      var src := EscapeXml(SourceText(e, locale));
      var tgt := EscapeXml(TargetText(e, locale));
      assert Units(t, locale)[i] + rest == UnitOpen + id + UnitMid + src + SourceClose + tgt + UnitClose + rest;
      ParseUnitOf(id, src, tgt, rest);
      UnescapeEscapeXml(SourceText(e, locale));
      UnescapeEscapeXml(TargetText(e, locale));
    }
  }

  /**
   * Round trip: reading a generated document gives back, for every entry
   * in order, its id and its source and target text as written, a missing
   * text reading as empty. So there is exactly one unit per entry.
   */
  lemma ParseDocumentOf(t: Translations, locale: string)
    requires forall i :: 0 <= i < |t| ==> '"' !in t[i].0
    ensures ParseDocument(Document(t, locale)) == Some(View(t, locale))
  {
    var units := Concat(Units(t, locale));
    var doc := Document(t, locale);
    PrefixOf(Header, units + Footer);
    assert doc == Header + (units + Footer);
    assert EndsWith(units + Footer, Footer);
    assert doc[|Header|..|doc| - |Footer|] == units;
    ParseEachUnit(t, locale);
    ParseUnitsConcat(Units(t, locale), View(t, locale));
  }

  /**
   * The documents the script writes read back completely: the ids it
   * derives are word characters, so they never end a unit's `id`
   * attribute early, and there is one unit per entry of `translations`.
   */
  lemma ParseTranslationsDocument(modes: Obj<string>, variables: seq<Variable>, locale: string)
    ensures ParseDocument(Document(TranslationsOf(modes, variables), locale)) ==
            Some(View(TranslationsOf(modes, variables), locale))
    ensures |View(TranslationsOf(modes, variables), locale)| == |Keys(TranslationsOf(modes, variables))|
  {
    var t := TranslationsOf(modes, variables);
    KeysAt(t);
    forall i | 0 <= i < |t| ensures '"' !in t[i].0 {
      TranslationsOfKeys(modes, variables, t[i].0);
      assert Keys(t)[i] in Keys(t);
    }
    ParseDocumentOf(t, locale);
  }
}
