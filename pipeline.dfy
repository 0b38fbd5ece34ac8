/**
 * The script as a whole (figma2xliff.js:34-88), without its file and
 * console I/O: from a document's `modes` and `variables` it builds the
 * locale index and `translations`, then produces one XLIFF document per
 * locale of `localesIds` other than the source locale, in the order of
 * `localesIds`.
 */
module Pipeline {
  import opened JsObject
  import opened LocaleIndex
  import opened TranslationModel
  import opened Xliff

  /** One translation file the script writes: its target locale and its text. */
  datatype OutputFile = OutputFile(locale: string, content: string)

  /** The loop of lines 84-88: one document for each target locale, in the order of `localesIds`. */
  method WriteTargets(translations: Translations, localesIds: Obj<string>) returns (files: seq<OutputFile>)
    ensures |files| == |TargetLocales(localesIds)|
    ensures forall j :: 0 <= j < |files| ==>
              files[j] == OutputFile(TargetLocales(localesIds)[j], Document(translations, TargetLocales(localesIds)[j]))
  {
    files := [];
    var i := 0;
    while i < |localesIds|
      invariant 0 <= i <= |localesIds|
      invariant |files| == |TargetLocales(localesIds[..i])|
      invariant forall j :: 0 <= j < |files| ==>
                  files[j] == OutputFile(TargetLocales(localesIds[..i])[j], Document(translations, TargetLocales(localesIds[..i])[j]))
    {
      var (key, _) := localesIds[i];
      assert localesIds[..i + 1][..i] == localesIds[..i];
      if key != SourceLocale {
        var content := GenerateXliff2(translations, key);
        files := files + [OutputFile(key, content)];
      }
      i := i + 1;
    }
    assert localesIds[..i] == localesIds;
  }

  /**
   * Lines 34-88. Files are produced for exactly the locales of `modes`
   * other than `en`, one per key of `localesIds`, and each file's text is
   * the document for its locale, which reads back as one unit per entry
   * of `translations`.
   */
  method Convert(modes: Obj<string>, variables: seq<Variable>) returns (files: seq<OutputFile>)
    ensures |files| == |TargetLocales(LocalesIds(modes))|
    ensures forall i :: 0 <= i < |files| ==>
              files[i] == OutputFile(TargetLocales(LocalesIds(modes))[i],
                                     Document(TranslationsOf(modes, variables), TargetLocales(LocalesIds(modes))[i]))
    ensures forall i :: 0 <= i < |files| ==>
              files[i].locale in Keys(LocalesIds(modes)) && files[i].locale != SourceLocale
    ensures forall i :: 0 <= i < |files| ==>
              ParseDocument(files[i].content) == Some(View(TranslationsOf(modes, variables), files[i].locale))
  {
    var localesIds := BuildLocalesIds(modes);
    var translations := BuildTranslations(modes, variables);
    files := WriteTargets(translations, localesIds);
    ghost var targets := TargetLocales(localesIds);
    forall j | 0 <= j < |files|
      ensures files[j].locale in Keys(localesIds) && files[j].locale != SourceLocale
      ensures ParseDocument(files[j].content) == Some(View(translations, files[j].locale))
    {
      assert targets[j] in targets;
      ParseTranslationsDocument(modes, variables, targets[j]);
    }
  }
}
