/**
 * The translation model (figma2xliff.js:45-82): the variables of the
 * document are folded, in order, into the `translations` object, keyed by
 * unit id. A base record (a name without `(plural)`) puts a fresh entry
 * under its id; a plural record attaches a `plural` map to the entry of
 * its base name, and only when that entry already exists. In both cases
 * the value of the source mode is stored under `source`, the value of
 * every other mode with a known, non-empty locale under that locale, and
 * the values of unknown modes are dropped.
 */
module TranslationModel {
  import opened JsObject
  import opened Text
  import opened NameId
  import opened LocaleIndex

  /** A variable of the exported document: its name and its value in each mode. */
  datatype Variable = Variable(name: string, valuesByMode: Obj<string>)

  /**
   * One entry of `translations`: the `source` and per-locale fields, and
   * the `plural` map once a plural record has been attached.
   */
  datatype Entry = Entry(fields: Obj<string>, plural: Option<Obj<string>>)

  /** The `translations` object: entries by unit id, in insertion order. */
  type Translations = Obj<Entry>

  /** The marker that makes a variable a plural record (line 47). */
  const PluralMarker: string := "(plural)"

  predicate IsPluralRecord(v: Variable)
  {
    Contains(v.name, PluralMarker)
  }

  /**
   * `name.replace(/\s*\(plural\)\s*$/, '')` (line 66): a `(plural)` at the
   * very end, ignoring trailing whitespace, is removed together with the
   * whitespace around it; otherwise the name is left alone.
   */
  function StripPluralSuffix(name: string): string
  {
    var e := TrimEnd(name);
    if EndsWith(e, PluralMarker) then TrimEnd(e[..|e| - |PluralMarker|]) else name
  }

  /** The name a plural record refers to, trimmed (line 66). */
  function PluralBaseName(name: string): string
  {
    Trim(StripPluralSuffix(name))
  }

  /**
   * Where the value of one mode is stored (lines 53-63 and 71-78): under
   * `source` for the source mode, under its locale for a mode whose locale
   * is known and not empty (`else if (locale)`), and nowhere otherwise.
   */
  function Slot(mode: string, idx: Index): Option<string>
  {
    if idx.SourceMode() == Some(mode) then Some("source")
    else match Get(idx.idToLocale, mode)
      case Some(l) => if l != "" then Some(l) else None
      case None => None
  }

  /** Property assignments in order, each to its slot; a value without a slot is skipped. */
  function Assign(routes: seq<(Option<string>, string)>): Obj<string>
  {
    if routes == [] then []
    else
      var n := |routes| - 1;
      var init := Assign(routes[..n]);
      match routes[n].0
      case Some(k) => Put(init, k, routes[n].1)
      case None => init
  }

  /** Each value of `valuesByMode` with the slot its mode is routed to. */
  function Routes(valuesByMode: Obj<string>, idx: Index): (routes: seq<(Option<string>, string)>)
    ensures |routes| == |valuesByMode|
    ensures forall i :: 0 <= i < |routes| ==> routes[i] == (Slot(valuesByMode[i].0, idx), valuesByMode[i].1)
  {
    seq(|valuesByMode|, i requires 0 <= i < |valuesByMode| => (Slot(valuesByMode[i].0, idx), valuesByMode[i].1))
  }

  /** The map the inner loops of lines 52-64 and 70-79 fill from a fresh `{}`. */
  function Distribute(valuesByMode: Obj<string>, idx: Index): Obj<string>
  {
    Assign(Routes(valuesByMode, idx))
  }

  /** Slot `k` holds the value of the last route to it. */
  lemma {:induction false} AssignLast(routes: seq<(Option<string>, string)>, k: string)
    ensures var i := LastIndex(routes, Some(k));
            Get(Assign(routes), k) == if i >= 0 then Some(routes[i].1) else None
  {
    if routes != [] {
      var n := |routes| - 1;
      AssignLast(routes[..n], k);
    }
  }

  /** Last write wins for routed assignments. */
  lemma AssignGet(routes: seq<(Option<string>, string)>, k: string, v: string)
    ensures Get(Assign(routes), k) == Some(v) <==>
            exists i :: 0 <= i < |routes| && routes[i] == (Some(k), v) && LastWrite(routes, i)
  {
    AssignLast(routes, k);
    var last := LastIndex(routes, Some(k));
    forall i | 0 <= i < |routes| && routes[i] == (Some(k), v) && LastWrite(routes, i)
      ensures i == last
    {
      assert 0 <= last && routes[last].0 == Some(k);
    }
  }

  /** One more routed assignment. */
  lemma AssignSnoc(routes: seq<(Option<string>, string)>, p: (Option<string>, string))
    ensures Assign(routes + [p]) == match p.0
                                   case Some(k) => Put(Assign(routes), k, p.1)
                                   case None => Assign(routes)
  {
    assert (routes + [p])[..|routes|] == routes;
  }

  /** A value without a slot leaves the assignments unchanged, wherever it stands. */
  lemma {:induction false} AssignSkips(a: seq<(Option<string>, string)>, v: string, b: seq<(Option<string>, string)>)
    ensures Assign(a + [(None, v)] + b) == Assign(a + b)
  {
    if b == [] {
      assert a + [(None, v)] + b == a + [(None, v)];
      assert a + b == a;
      AssignSnoc(a, (None, v));
    } else {
      var n := |b| - 1;
      AssignSkips(a, v, b[..n]);
      assert a + [(None, v)] + b == (a + [(None, v)] + b[..n]) + [b[n]];
      assert a + b == (a + b[..n]) + [b[n]];
      AssignSnoc(a + [(None, v)] + b[..n], b[n]);
      AssignSnoc(a + b[..n], b[n]);
    }
  }

  /** Mode `i` is the last one whose value is stored under `k`: the last route to slot `k`. */
  ghost predicate LastInSlot(valuesByMode: Obj<string>, idx: Index, k: string, i: int)
    requires 0 <= i < |valuesByMode|
  {
    Slot(valuesByMode[i].0, idx) == Some(k) && LastWrite(Routes(valuesByMode, idx), i)
  }

  /**
   * The filled map holds `v` under `k` exactly when the last mode routed
   * to `k` has value `v`: no key comes from anywhere but a routed mode.
   */
  lemma DistributeGet(valuesByMode: Obj<string>, idx: Index, k: string, v: string)
    ensures Get(Distribute(valuesByMode, idx), k) == Some(v) <==>
            exists i :: 0 <= i < |valuesByMode| && valuesByMode[i].1 == v && LastInSlot(valuesByMode, idx, k, i)
  {
    var routes := Routes(valuesByMode, idx);
    AssignGet(routes, k, v);
    forall i | 0 <= i < |valuesByMode|
      ensures (routes[i] == (Some(k), v) && LastWrite(routes, i)) <==>
              (valuesByMode[i].1 == v && LastInSlot(valuesByMode, idx, k, i))
    {
    }
  }

  /** A mode that is neither the source mode nor a known locale contributes nothing. */
  lemma DistributeIgnoresUnknown(a: Obj<string>, mode: string, v: string, b: Obj<string>, idx: Index)
    requires Slot(mode, idx) == None
    ensures Distribute(a + [(mode, v)] + b, idx) == Distribute(a + b, idx)
  {
    var ra := Routes(a, idx);
    var rb := Routes(b, idx);
    assert Routes(a + [(mode, v)] + b, idx) == ra + [(None, v)] + rb;
    assert Routes(a + b, idx) == ra + rb;
    AssignSkips(ra, v, rb);
  }

  /** A locale read from `idToLocale` is a key of `localesIds`. */
  lemma IdToLocaleKey(localesIds: Obj<string>, m: string, l: string)
    requires Get(IdToLocale(localesIds), m) == Some(l)
    ensures l in Keys(localesIds)
  {
    FromEntriesGet(Swapped(localesIds), m, l);
    var i :| 0 <= i < |localesIds| && Swapped(localesIds)[i] == (m, l) && LastWrite(Swapped(localesIds), i);
    KeysAt(localesIds);
    assert Keys(localesIds)[i] == l;
  }

  /**
   * The value of the source mode is stored under `source`, provided no
   * locale is itself called `source` and the mode occurs once.
   */
  lemma DistributeSource(modes: Obj<string>, valuesByMode: Obj<string>, i: int)
    requires DistinctKeys(valuesByMode) && 0 <= i < |valuesByMode|
    requires IndexOf(modes).SourceMode() == Some(valuesByMode[i].0)
    requires "source" !in Keys(LocalesIds(modes))
    ensures Get(Distribute(valuesByMode, IndexOf(modes)), "source") == Some(valuesByMode[i].1)
  {
    var idx := IndexOf(modes);
    forall j | i < j < |valuesByMode| ensures Slot(valuesByMode[j].0, idx) != Some("source") {
      var m := valuesByMode[j].0;
      assert m != valuesByMode[i].0;
      if Get(idx.idToLocale, m).Some? {
        IdToLocaleKey(idx.localesIds, m, Get(idx.idToLocale, m).value);
      }
    }
    assert LastInSlot(valuesByMode, idx, "source", i);
    DistributeGet(valuesByMode, idx, "source", valuesByMode[i].1);
  }

  /**
   * The value of a mode with a known locale `l` (other than the source
   * mode) is stored under `l`, provided `l` is not empty and not `source`.
   */
  lemma DistributeLocale(modes: Obj<string>, valuesByMode: Obj<string>, i: int, l: string)
    requires DistinctKeys(modes) && DistinctKeys(valuesByMode) && 0 <= i < |valuesByMode|
    requires IndexOf(modes).SourceMode() != Some(valuesByMode[i].0)
    requires Get(IndexOf(modes).idToLocale, valuesByMode[i].0) == Some(l)
    requires l != "" && l != "source"
    ensures Get(Distribute(valuesByMode, IndexOf(modes)), l) == Some(valuesByMode[i].1)
  {
    var idx := IndexOf(modes);
    var mi := valuesByMode[i].0;
    IdToLocaleInverse(modes, l, mi);
    forall j | i < j < |valuesByMode| ensures Slot(valuesByMode[j].0, idx) != Some(l) {
      var m := valuesByMode[j].0;
      assert m != mi;
      if Get(idx.idToLocale, m) == Some(l) {
        IdToLocaleInverse(modes, l, m);
      }
    }
    assert LastInSlot(valuesByMode, idx, l, i);
    DistributeGet(valuesByMode, idx, l, valuesByMode[i].1);
  }

  /**
   * What one variable contributes (lines 47-48 and 66): whether it is a
   * plural record, the id it is filed under, and its values by slot.
   */
  datatype Record = Record(plural: bool, id: string, values: Obj<string>)

  /** The record a variable is read as. */
  function Classify(v: Variable, idx: Index): Record
  {
    if IsPluralRecord(v) then Record(true, FormatNameId(PluralBaseName(v.name)), Distribute(v.valuesByMode, idx))
    else Record(false, FormatNameId(v.name), Distribute(v.valuesByMode, idx))
  }

  /** The records of the variables, in order. */
  function Records(vs: seq<Variable>, idx: Index): (rs: seq<Record>)
    ensures |rs| == |vs|
    ensures forall i :: 0 <= i < |vs| ==> rs[i] == Classify(vs[i], idx)
  {
    seq(|vs|, i requires 0 <= i < |vs| => Classify(vs[i], idx))
  }

  /** Processing one variable (lines 46-82), as a record. */
  function Step(t: Translations, r: Record): Translations
  {
    if !r.plural then Put(t, r.id, Entry(r.values, None))
    else if r.id in Keys(t) then Put(t, r.id, Get(t, r.id).value.(plural := Some(r.values)))
    else t
  }

  /**
   * What processing one record does to `translations`. A base record
   * replaces the entry under its id with a fresh one; a plural record
   * replaces only the `plural` map of an existing entry and leaves
   * `translations` alone when there is none. No other entry changes, and
   * a new id is appended.
   */
  lemma StepSpec(t: Translations, r: Record)
    ensures !r.plural ==> Get(Step(t, r), r.id) == Some(Entry(r.values, None))
    ensures r.plural && r.id !in Keys(t) ==> Step(t, r) == t
    ensures r.plural && r.id in Keys(t) ==>
              Get(Step(t, r), r.id) == Some(Get(t, r.id).value.(plural := Some(r.values)))
    ensures forall x :: x != r.id ==> Get(Step(t, r), x) == Get(t, x)
    ensures r.id in Keys(t) ==> Keys(Step(t, r)) == Keys(t)
    ensures r.id !in Keys(t) ==> Keys(Step(t, r)) == Keys(t) + (if r.plural then [] else [r.id])
  {
    if !r.plural {
      KeysAppend(t, r.id, Entry(r.values, None));
    }
  }

  /** `translations` after the records have been processed in order. */
  function Build(rs: seq<Record>): Translations
  {
    if rs == [] then [] else Step(Build(rs[..|rs| - 1]), rs[|rs| - 1])
  }

  /** The `translations` object the script builds from a document. */
  function TranslationsOf(modes: Obj<string>, variables: seq<Variable>): Translations
  {
    Build(Records(variables, IndexOf(modes)))
  }

  /** There is an entry for `k` exactly when some base record has id `k`. */
  lemma {:induction false} BuildHasKey(rs: seq<Record>, k: string)
    ensures k in Keys(Build(rs)) <==> exists i :: 0 <= i < |rs| && !rs[i].plural && rs[i].id == k
  {
    if rs != [] {
      var n := |rs| - 1;
      var init := rs[..n];
      BuildHasKey(init, k);
      var t := Build(init);
      assert Build(rs) == Step(t, rs[n]);
      StepSpec(t, rs[n]);
      if exists i :: 0 <= i < n && !init[i].plural && init[i].id == k {
        var i :| 0 <= i < n && !init[i].plural && init[i].id == k;
        assert rs[i] == init[i];
      }
      if exists i :: 0 <= i < n && !rs[i].plural && rs[i].id == k {
        var i :| 0 <= i < n && !rs[i].plural && rs[i].id == k;
        assert init[i] == rs[i];
      }
    }
  }

  /**
   * The ids of `translations` are exactly the ids of the variables that
   * are not plural records, so each is made of word characters only.
   */
  lemma TranslationsOfKeys(modes: Obj<string>, variables: seq<Variable>, k: string)
    ensures k in Keys(TranslationsOf(modes, variables)) <==>
            exists i :: 0 <= i < |variables| && !IsPluralRecord(variables[i]) && FormatNameId(variables[i].name) == k
    ensures k in Keys(TranslationsOf(modes, variables)) ==> forall c :: c in k ==> IsWordChar(c)
  {
    var rs := Records(variables, IndexOf(modes));
    BuildHasKey(rs, k);
    if exists i :: 0 <= i < |rs| && !rs[i].plural && rs[i].id == k {
      var i :| 0 <= i < |rs| && !rs[i].plural && rs[i].id == k;
      assert !IsPluralRecord(variables[i]) && FormatNameId(variables[i].name) == k;
    }
    if exists i :: 0 <= i < |variables| && !IsPluralRecord(variables[i]) && FormatNameId(variables[i].name) == k {
      var i :| 0 <= i < |variables| && !IsPluralRecord(variables[i]) && FormatNameId(variables[i].name) == k;
      assert !rs[i].plural && rs[i].id == k;
    }
  }

  /** Ids appear in the order of their first base record, each once. */
  lemma {:induction false} BuildKeysOrder(rs: seq<Record>)
    ensures Keys(Build(rs)) == FirstIds(rs)
  {
    if rs != [] {
      var n := |rs| - 1;
      BuildKeysOrder(rs[..n]);
      StepSpec(Build(rs[..n]), rs[n]);
    }
  }

  /** The ids of the base records, each at its first occurrence. */
  function FirstIds(rs: seq<Record>): (ids: seq<string>)
  {
    if rs == [] then []
    else
      var init := FirstIds(rs[..|rs| - 1]);
      var r := rs[|rs| - 1];
      if r.plural || r.id in init then init else init + [r.id]
  }

  /** The values of the last plural record with id `k`; `None` when there is none. */
  function LastPlural(rs: seq<Record>, k: string): Option<Obj<string>>
  {
    if rs == [] then None
    else
      var r := rs[|rs| - 1];
      if r.plural && r.id == k then Some(r.values) else LastPlural(rs[..|rs| - 1], k)
  }

  /** There is a last plural record for `k` exactly when there is any. */
  lemma {:induction false} LastPluralSome(rs: seq<Record>, k: string)
    ensures LastPlural(rs, k).Some? <==> exists i :: 0 <= i < |rs| && rs[i].plural && rs[i].id == k
  {
    if rs != [] {
      var n := |rs| - 1;
      LastPluralSome(rs[..n], k);
      if exists i :: 0 <= i < n && rs[..n][i].plural && rs[..n][i].id == k {
        var i :| 0 <= i < n && rs[..n][i].plural && rs[..n][i].id == k;
        assert rs[i] == rs[..n][i];
      }
      if exists i :: 0 <= i < n && rs[i].plural && rs[i].id == k {
        var i :| 0 <= i < n && rs[i].plural && rs[i].id == k;
        assert rs[..n][i] == rs[i];
      }
    }
  }

  /** Record `i` is the last base record with id `k`. */
  ghost predicate LastBase(rs: seq<Record>, k: string, i: int)
  {
    0 <= i < |rs| && !rs[i].plural && rs[i].id == k &&
    forall j :: i < j < |rs| ==> rs[j].plural || rs[j].id != k
  }

  /**
   * The entry under `k` comes from the last base record with that id; its
   * `plural` map comes from the last plural record for `k` that follows
   * it. Plural records that precede it are lost.
   */
  lemma {:induction false} BuildEntry(rs: seq<Record>, k: string, i: int)
    requires LastBase(rs, k, i)
    ensures Get(Build(rs), k) == Some(Entry(rs[i].values, LastPlural(rs[i + 1..], k)))
  {
    var n := |rs| - 1;
    var init := rs[..n];
    var r := rs[n];
    assert Build(rs) == Step(Build(init), r);
    if i == n {
      assert rs[i + 1..] == [];
    } else {
      LastBaseInit(rs, k, i);
      BuildEntry(init, k, i);
      var p := LastPlural(init[i + 1..], k);
      LastPluralSnoc(rs, k, i);
      StepKeepsEntry(Build(init), r, k, Entry(rs[i].values, p));
    }
  }

  /** The last base record for `k` stays the last one without the final record, which is no base record for `k`. */
  lemma LastBaseInit(rs: seq<Record>, k: string, i: int)
    requires LastBase(rs, k, i) && i < |rs| - 1
    ensures LastBase(rs[..|rs| - 1], k, i)
    ensures rs[|rs| - 1].plural || rs[|rs| - 1].id != k
  {
    assert forall j :: i < j < |rs| - 1 ==> rs[..|rs| - 1][j] == rs[j];
  }

  /** The last plural record after position `i`, one record at a time. */
  lemma LastPluralSnoc(rs: seq<Record>, k: string, i: int)
    requires 0 <= i < |rs| - 1
    ensures LastPlural(rs[i + 1..], k) ==
            var r := rs[|rs| - 1];
            if r.plural && r.id == k then Some(r.values) else LastPlural(rs[..|rs| - 1][i + 1..], k)
  {
    var tail := rs[i + 1..];
    assert tail[..|tail| - 1] == rs[..|rs| - 1][i + 1..] && tail[|tail| - 1] == rs[|rs| - 1];
  }

  /** A record that is not a base record for `k` at most replaces the `plural` map of `k`'s entry. */
  lemma StepKeepsEntry(t: Translations, r: Record, k: string, e: Entry)
    requires Get(t, k) == Some(e)
    requires r.plural || r.id != k
    ensures Get(Step(t, r), k) == Some(if r.plural && r.id == k then e.(plural := Some(r.values)) else e)
  {
    StepSpec(t, r);
  }

  /**
   * A plural name refers to the variable it extends: line 66 removes the
   * final `(plural)` of `n + w1 + "(plural)" + w2` together with the
   * whitespace `w1` and `w2` around it (and any whitespace `n` ends with),
   * and the id of what remains is the id of `n`.
   */
  lemma PluralNameSameId(n: string, w1: string, w2: string)
    requires AllSpace(w1) && AllSpace(w2)
    ensures IsPluralRecord(Variable(n + w1 + PluralMarker + w2, []))
    ensures StripPluralSuffix(n + w1 + PluralMarker + w2) == TrimEnd(n)
    ensures FormatNameId(PluralBaseName(n + w1 + PluralMarker + w2)) == FormatNameId(n)
  {
    var core := n + w1 + PluralMarker;
    var name := core + w2;
    assert n + w1 + PluralMarker + w2 == name;
    ContainsSuffix(n + w1, PluralMarker);
    assert Contains(name, PluralMarker) by { ContainsPrefix(core, w2, PluralMarker); }
    TrimEndAppend(core, w2);
    assert TrimEnd(core) == core by { assert !IsSpace(core[|core| - 1]); }
    assert core[..|core| - |PluralMarker|] == n + w1;
    TrimEndAppend(n, w1);
    assert StripPluralSuffix(name) == TrimEnd(n);
    FormatNameIdTrim(TrimEnd(n));
    TrimEndId(n);
  }

  /** Text that contains `p` still contains it with more text appended. */
  lemma {:induction false} ContainsPrefix(a: string, b: string, p: string)
    requires Contains(a, p)
    ensures Contains(a + b, p)
  {
    if StartsWith(a, p) {
      assert (a + b)[..|p|] == a[..|p|];
    } else {
      assert (a + b)[1..] == a[1..] + b;
      ContainsPrefix(a[1..], b, p);
    }
  }

  /** One more routed value, as the inner loops assign it. */
  lemma DistributeSnoc(valuesByMode: Obj<string>, j: int, idx: Index)
    requires 0 <= j < |valuesByMode|
    ensures Distribute(valuesByMode[..j + 1], idx) ==
            match Slot(valuesByMode[j].0, idx)
            case Some(k) => Put(Distribute(valuesByMode[..j], idx), k, valuesByMode[j].1)
            case None => Distribute(valuesByMode[..j], idx)
  {
    var routes := Routes(valuesByMode[..j + 1], idx);
    assert routes == Routes(valuesByMode[..j], idx) + [(Slot(valuesByMode[j].0, idx), valuesByMode[j].1)];
    AssignSnoc(Routes(valuesByMode[..j], idx), (Slot(valuesByMode[j].0, idx), valuesByMode[j].1));
  }

  /**
   * The inner loops of lines 52-64 and 70-79: each value of
   * `valuesByMode` is stored in a fresh map under its slot. The map is
   * the object at `translations[id]` (resp. `translations[id].plural`),
   * which nothing else reads while it is filled.
   */
  method FillSlots(valuesByMode: Obj<string>, localesIds: Obj<string>, idToLocale: Obj<string>)
    returns (slots: Obj<string>)
    ensures slots == Distribute(valuesByMode, Index(localesIds, idToLocale))
  {
    ghost var idx := Index(localesIds, idToLocale);
    var sourceMode := Get(localesIds, SourceLocale);
    slots := [];
    var j := 0;
    while j < |valuesByMode|
      invariant 0 <= j <= |valuesByMode|
      invariant slots == Distribute(valuesByMode[..j], idx)
    {
      var (key, value) := valuesByMode[j];
      var locale := Get(idToLocale, key);
      DistributeSnoc(valuesByMode, j, idx);
      if sourceMode == Some(key) {
        assert Slot(key, idx) == Some("source");
        slots := Put(slots, "source", value);
      } else if locale.Some? && locale.value != "" {
        assert Slot(key, idx) == locale;
        slots := Put(slots, locale.value, value);
      } else {
        assert Slot(key, idx) == None;
      }
      j := j + 1;
    }
    assert valuesByMode[..j] == valuesByMode;
  }

  /** Lines 50-64: a fresh entry is put under `id` and filled from `valuesByMode`. */
  method AddBase(translations: Translations, id: string, valuesByMode: Obj<string>, localesIds: Obj<string>, idToLocale: Obj<string>)
    returns (updated: Translations)
    ensures updated == Put(translations, id, Entry(Distribute(valuesByMode, Index(localesIds, idToLocale)), None))
  {
    var fields := FillSlots(valuesByMode, localesIds, idToLocale);
    updated := Put(translations, id, Entry(fields, None));
  }

  /**
   * Lines 69-79: the entry under `id` gets a fresh `plural` map, filled
   * from `valuesByMode`; its other fields stay.
   */
  method AttachPlural(translations: Translations, id: string, valuesByMode: Obj<string>, localesIds: Obj<string>, idToLocale: Obj<string>)
    returns (updated: Translations)
    requires id in Keys(translations)
    ensures updated == Put(translations, id,
                           Get(translations, id).value.(plural := Some(Distribute(valuesByMode, Index(localesIds, idToLocale)))))
  {
    var plural := FillSlots(valuesByMode, localesIds, idToLocale);
    var existing := Get(translations, id).value;
    updated := Put(translations, id, existing.(plural := Some(plural)));
  }

  /**
   * The `forEach` callback of lines 46-82: a base record is added under
   * its id; a plural record is attached to the entry of its base name when
   * there is one (`hasOwnProperty`, line 68) and dropped otherwise.
   */
  method AddVariable(translations: Translations, variable: Variable, localesIds: Obj<string>, idToLocale: Obj<string>)
    returns (updated: Translations)
    ensures updated == Step(translations, Classify(variable, Index(localesIds, idToLocale)))
  {
    if !Contains(variable.name, PluralMarker) {
      var id := FormatNameId(variable.name);
      updated := AddBase(translations, id, variable.valuesByMode, localesIds, idToLocale);
    } else {
      var id := FormatNameId(Trim(StripPluralSuffix(variable.name)));
      if id in Keys(translations) {
        updated := AttachPlural(translations, id, variable.valuesByMode, localesIds, idToLocale);
      } else {
        updated := translations;
      }
    }
  }

  /**
   * Lines 34-82: the locale index is built, then every variable is read
   * into `translations`, in order.
   */
  method BuildTranslations(modes: Obj<string>, variables: seq<Variable>) returns (translations: Translations)
    ensures translations == TranslationsOf(modes, variables)
  {
    var localesIds := BuildLocalesIds(modes);
    var idToLocale := IdToLocale(localesIds);
    translations := [];
    var i := 0;
    while i < |variables|
      invariant 0 <= i <= |variables|
      invariant translations == Build(Records(variables[..i], IndexOf(modes)))
    {
      assert Records(variables[..i + 1], IndexOf(modes))[..i] == Records(variables[..i], IndexOf(modes));
      translations := AddVariable(translations, variables[i], localesIds, idToLocale);
      i := i + 1;
    }
    assert variables[..i] == variables;
  }
}
