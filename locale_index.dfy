/**
 * The locale index (figma2xliff.js:34-40): from the document's `modes`
 * object, whose keys are mode IDs and whose values are locale codes, the
 * converter builds `localesIds` (locale code to mode ID) and its inverse
 * `idToLocale` (mode ID to locale code). The source mode is
 * `localesIds['en']`.
 */
module LocaleIndex {
  import opened JsObject

  /** The locale the translation files translate from (figma2xliff.js:7). */
  const SourceLocale: string := "en"

  /** Every entry with its key and value exchanged. */
  function Swapped(o: Obj<string>): (r: Obj<string>)
    ensures |r| == |o|
    ensures forall i :: 0 <= i < |o| ==> r[i] == (o[i].1, o[i].0)
  {
    seq(|o|, i requires 0 <= i < |o| => (o[i].1, o[i].0))
  }

  /** What the loop of lines 34-37 builds: `localesIds[value] = key` for each entry of `modes`, in order. */
  function LocalesIds(modes: Obj<string>): Obj<string>
  {
    FromEntries(Swapped(modes))
  }

  /** `Object.fromEntries` of the entries of `localesIds` with key and value exchanged (lines 38-40). */
  function IdToLocale(localesIds: Obj<string>): Obj<string>
  {
    FromEntries(Swapped(localesIds))
  }

  /** The two lookup tables the builder consults. */
  datatype Index = Index(localesIds: Obj<string>, idToLocale: Obj<string>)
  {
    /** `localesIds[sourceLocale]`: absent when no mode carries the locale `en`. */
    function SourceMode(): Option<string>
    {
      Get(localesIds, SourceLocale)
    }
  }

  /** The index derived from a document's `modes`. */
  function IndexOf(modes: Obj<string>): Index
  {
    var localesIds := LocalesIds(modes);
    Index(localesIds, IdToLocale(localesIds))
  }

  /** The loop of lines 34-37. */
  method BuildLocalesIds(modes: Obj<string>) returns (localesIds: Obj<string>)
    ensures localesIds == LocalesIds(modes)
  {
    localesIds := [];
    var i := 0;
    while i < |modes|
      invariant 0 <= i <= |modes|
      invariant localesIds == FromEntries(Swapped(modes[..i]))
    {
      var (key, value) := modes[i];
      assert Swapped(modes[..i + 1])[..i] == Swapped(modes[..i]);
      localesIds := Put(localesIds, value, key);
      i := i + 1;
    }
    assert modes[..i] == modes;
  }

  /**
   * Last write wins: locale `l` is indexed to mode `m` exactly when `m: l`
   * is the last entry of `modes` whose value is `l`, that is, the last
   * write of `l` once keys and values are swapped.
   */
  lemma LocalesIdsGet(modes: Obj<string>, l: string, m: string)
    ensures Get(LocalesIds(modes), l) == Some(m) <==>
            exists i :: 0 <= i < |modes| && modes[i] == (m, l) && LastWrite(Swapped(modes), i)
  {
    var sw := Swapped(modes);
    FromEntriesGet(sw, l, m);
    forall i | 0 <= i < |modes|
      ensures sw[i] == (l, m) <==> modes[i] == (m, l)
    {
      assert sw[i] == (modes[i].1, modes[i].0);
    }
  }

  /** Every locale the index knows comes from an entry of `modes`. */
  lemma LocalesIdsFound(modes: Obj<string>, l: string, m: string)
    requires Get(LocalesIds(modes), l) == Some(m)
    ensures (m, l) in modes
  {
    LocalesIdsGet(modes, l, m);
  }

  /**
   * When the mode IDs are distinct (as the keys of a parsed JSON object
   * are), `idToLocale` is exactly the inverse of `localesIds`, in both
   * directions, even if two modes name the same locale.
   */
  lemma {:induction false} IdToLocaleInverse(modes: Obj<string>, l: string, m: string)
    requires DistinctKeys(modes)
    ensures var idx := IndexOf(modes);
            Get(idx.localesIds, l) == Some(m) <==> Get(idx.idToLocale, m) == Some(l)
  {
    var localesIds := LocalesIds(modes);
    var inverse := Swapped(localesIds);
    forall i, j | 0 <= i < j < |inverse| ensures inverse[i].0 != inverse[j].0 {
      var (li, mi) := localesIds[i];
      var (lj, mj) := localesIds[j];
      GetDistinct(localesIds, li, mi);
      GetDistinct(localesIds, lj, mj);
      LocalesIdsFound(modes, li, mi);
      LocalesIdsFound(modes, lj, mj);
    }
    FromEntriesDistinct(inverse);
    GetDistinct(inverse, m, l);
    GetDistinct(localesIds, l, m);
    assert (m, l) in inverse <==> (l, m) in localesIds by {
      if (l, m) in localesIds {
        var i :| 0 <= i < |localesIds| && localesIds[i] == (l, m);
        assert inverse[i] == (m, l);
      }
    }
  }

  /** No locale code occurs twice among the values of `modes`. */
  ghost predicate DistinctValues(o: Obj<string>)
  {
    forall i, j :: 0 <= i < j < |o| ==> o[i].1 != o[j].1
  }

  /**
   * When mode IDs and locale codes are both distinct, `localesIds` is
   * `modes` turned around and `idToLocale` is `modes` itself.
   */
  lemma {:induction false} IndexOfOneToOne(modes: Obj<string>)
    requires DistinctKeys(modes) && DistinctValues(modes)
    ensures IndexOf(modes).localesIds == Swapped(modes)
    ensures IndexOf(modes).idToLocale == modes
  {
    FromEntriesDistinct(Swapped(modes));
    assert Swapped(Swapped(modes)) == modes;
    FromEntriesDistinct(modes);
  }

  /**
   * The locales a translation file is written for (lines 84-85): the keys
   * of `localesIds` other than the source locale, in their order.
   */
  function TargetLocales(localesIds: Obj<string>): (targets: seq<string>)
    ensures forall l :: l in targets <==> l in Keys(localesIds) && l != SourceLocale
    ensures |targets| <= |localesIds|
  {
    if localesIds == [] then []
    else
      var n := |localesIds| - 1;
      var rest := TargetLocales(localesIds[..n]);
      assert localesIds == localesIds[..n] + [localesIds[n]];
      KeysAppend(localesIds[..n], localesIds[n].0, localesIds[n].1);
      if localesIds[n].0 != SourceLocale then rest + [localesIds[n].0] else rest
  }
}
