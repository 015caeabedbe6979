/** Reconciliation of stored settings with the packaged template: missing entries are added,
    new metadata is filled in, and removed entries are pruned. */
module Settings {
  import opened Common

  /** A configuration value as loaded from the store or the template. */
  datatype Value =
    | Null
    | Bool(flag: bool)
    | Number(number: int)
    | Text(text: string)
    | List(items: seq<Value>)
    | Dict(fields: map<string, Value>)

  type Fields = map<string, Value>

  /** A missing key reads like a key whose value is null. */
  function Get(m: Fields, key: string): Value { if key in m then m[key] else Null }

  predicate Truthy(v: Value) {
    match v
    case Null => false
    case Bool(b) => b
    case Number(n) => n != 0
    case Text(t) => t != ""
    case List(items) => items != []
    case Dict(fields) => fields != map[]
  }

  /** The entries of a section; one that is missing or not a dictionary has none. */
  function Section(m: Fields, name: string): Fields {
    if name in m && m[name].Dict? then m[name].fields else map[]
  }

  // ---------------------------------------------------------------------------
  // Adding entries and filling fields

  const METADATA: seq<string> := ["description", "category", "restart_required"]

  /** Template fields of the given names that replace nothing, or a null. */
  function FillNull(active: Fields, template: Fields, names: seq<string>): Fields {
    active + Fillers(active, template, names)
  }

  function Fillers(active: Fields, template: Fields, names: seq<string>): Fields {
    map k | k in template && k in names && Get(active, k).Null? :: template[k]
  }

  function FillMetadata(active: Fields, template: Fields): Fields { FillNull(active, template, METADATA) }

  /** Template fields that are missing, and a null "provider". */
  function FillProvider(active: Fields, template: Fields): Fields {
    active + map k | k in template && (k !in active || (k == "provider" && active[k].Null?)) :: template[k]
  }

  /** Applies a fill to a dictionary whose template is a dictionary too. */
  function Filled(active: Value, template: Value, fill: (Fields, Fields) -> Fields): Value {
    if active.Dict? && template.Dict? then Dict(fill(active.fields, template.fields)) else active
  }

  /** Applies a fill to each entry that the template has too. */
  function FillEntries(active: Fields, template: Fields, fill: (Fields, Fields) -> Fields): Fields {
    map k | k in active :: if k in template then Filled(active[k], template[k], fill) else active[k]
  }

  /** Applies a fill to one section, when it is a dictionary. */
  function FillSection(m: Fields, template: Fields, name: string, fill: (Fields, Fields) -> Fields): Fields {
    if name in m && m[name].Dict? then m[name := Dict(FillEntries(m[name].fields, Section(template, name), fill))]
    else m
  }

  /** A section of the template under the active entries. */
  function Under(m: Fields, s: string, section: Fields): Value { Dict(section + Section(m, s)) }

  /** Every dictionary section of the template is there, with every entry it lacked. */
  function AddMissing(m: Fields, template: Fields): Fields { m + Sections(m, template) }

  function Sections(m: Fields, template: Fields): Fields {
    map s | s in template && template[s].Dict? :: Under(m, s, template[s].fields)
  }

  // ---------------------------------------------------------------------------
  // Pruning

  predicate Editable(entry: Value, default: bool) {
    if entry.Dict? && Get(entry.fields, "user_editable").Bool? then Get(entry.fields, "user_editable").flag else default
  }

  predicate Managed(entry: Value) { entry.Dict? && Truthy(Get(entry.fields, "managed_id")) }

  /** Whether an entry that is not in the template stays: models are editable unless they say
      otherwise or when managed, tools and providers only when they say so. */
  predicate Kept(name: string, entry: Value) {
    Editable(entry, name == "models") || (name == "models" && Managed(entry))
  }

  function PruneEntries(name: string, active: Fields, template: Fields): Fields {
    map k | k in active && (k in template || Kept(name, active[k])) :: active[k]
  }

  function PruneSection(m: Fields, template: Fields, name: string): Fields {
    m[name := Dict(PruneEntries(name, Section(m, name), Section(template, name)))]
  }

  function PruneSettings(m: Fields, template: Fields): Result<Fields> {
    if Get(m, "settings").Dict? then
      var settings, section := m["settings"].fields, Section(template, "settings");
      Ok(m["settings" := Dict(map k | k in settings && k in section :: settings[k])])
    else Err
  }

  /** The whole reconciliation, step by step. */
  function Reconcile(upgraded: Fields, template: Fields): Result<Fields> {
    var added := AddMissing(upgraded, template);
    var described := FillSection(added, template, "settings", FillMetadata);
    var filled := FillSection(described, template, "providers", FillProvider);
    match PruneSettings(filled, template)
    case Err => Err
    case Ok(m) =>
      Ok(PruneSection(PruneSection(PruneSection(m, template, "tools"), template, "models"), template, "providers"))
  }

  // ---------------------------------------------------------------------------
  // The loops of the source

  method AddKeys(start: Fields, template: Fields) returns (active: Fields)
    ensures active == template + start
  {
    active := start;
    var rest := template.Keys;
    while rest != {}
      invariant rest <= template.Keys
      invariant active.Keys == start.Keys + (template.Keys - rest)
      invariant forall k | k in active :: active[k] == if k in start then start[k] else template[k]
    {
      var k :| k in rest;
      rest := rest - {k};
      if k !in active {
        active := active[k := template[k]];
      }
    }
  }

  lemma AddOne(m: Fields, done: Fields, s: string, v: Value)
    requires s !in done
    ensures AddMissing(m, done[s := v]) ==
            if v.Dict? then AddMissing(m, done)[s := Under(m, s, v.fields)] else AddMissing(m, done)
  {
    hide Under, Sections;
    SectionsOne(m, done, s, v);
    if v.Dict? { UpdateSum(m, Sections(m, done), s, Under(m, s, v.fields)); }
  }

  lemma UpdateSum(a: Fields, b: Fields, s: string, v: Value)
    ensures a + b[s := v] == (a + b)[s := v]
  {
  }

  lemma NotYetAdded(m: Fields, done: Fields, s: string)
    requires s !in done
    ensures Section(AddMissing(m, done), s) == Section(m, s)
  {
    hide Under;
    assert s !in Sections(m, done);
  }

  lemma SectionsOne(m: Fields, done: Fields, s: string, v: Value)
    requires s !in done
    ensures Sections(m, done[s := v]) ==
            if v.Dict? then Sections(m, done)[s := Under(m, s, v.fields)] else Sections(m, done)
  {
    hide Under;
  }

  method AddSections(upgraded: Fields, template: Fields) returns (merged: Fields)
    ensures merged == AddMissing(upgraded, template)
  {
    merged := upgraded;
    var rest := template.Keys;
    ghost var done: Fields := map[];
    assert AddMissing(upgraded, done) == upgraded;
    while rest != {}
      invariant rest <= template.Keys && done.Keys == template.Keys - rest
      invariant forall s | s in done :: done[s] == template[s]
      invariant merged == AddMissing(upgraded, done)
    {
      hide AddMissing, Section;
      var s :| s in rest;
      AddOne(upgraded, done, s, template[s]);
      NotYetAdded(upgraded, done, s);
      rest := rest - {s};
      done := done[s := template[s]];
      if template[s].Dict? {
        var active := AddKeys(Section(merged, s), template[s].fields);
        merged := merged[s := Dict(active)];
      }
    }
    assert done == template;
  }

  lemma FillOne(active: Fields, template: Fields, names: seq<string>, name: string)
    requires name !in names
    ensures var before := FillNull(active, template, names);
      FillNull(active, template, names + [name]) ==
        if name in template && Get(before, name).Null? then before[name := template[name]] else before
  {
    FillersOne(active, template, names, name);
    assert Get(FillNull(active, template, names), name) == Get(active, name);
    hide Fillers, Get;
    if name in template && Get(active, name).Null? {
      UpdateSum(active, Fillers(active, template, names), name, template[name]);
    }
  }

  lemma FillersOne(active: Fields, template: Fields, names: seq<string>, name: string)
    requires name !in names
    ensures var before := Fillers(active, template, names);
      Fillers(active, template, names + [name]) ==
        if name in template && Get(active, name).Null? then before[name := template[name]] else before
  {
    hide Get;
    assert forall k :: k in names + [name] <==> k in names || k == name;
  }

  method DescribeSetting(start: Fields, template: Fields) returns (active: Fields)
    ensures active == FillMetadata(start, template)
  {
    active := start;
    assert METADATA[..0] == [];
    assert FillNull(start, template, []) == start;
    for i := 0 to 3
      invariant active == FillNull(start, template, METADATA[..i])
    {
      hide FillNull;
      var key := METADATA[i];
      assert METADATA[..i + 1] == METADATA[..i] + [key];
      FillOne(start, template, METADATA[..i], key);
      if key in template && Get(active, key).Null? {
        active := active[key := template[key]];
      }
    }
    assert METADATA[..3] == METADATA;
  }

  lemma ProvideOne(active: Fields, done: Fields, k: string, v: Value)
    requires k !in done
    ensures var before := FillProvider(active, done);
      FillProvider(active, done[k := v]) ==
        if k !in before || (k == "provider" && before[k].Null?) then before[k := v] else before
  {
  }

  method CompleteProvider(start: Fields, template: Fields) returns (active: Fields)
    ensures active == FillProvider(start, template)
  {
    active := start;
    var rest := template.Keys;
    ghost var done: Fields := map[];
    assert FillProvider(start, done) == start;
    while rest != {}
      invariant rest <= template.Keys && done.Keys == template.Keys - rest
      invariant forall k | k in done :: done[k] == template[k]
      invariant active == FillProvider(start, done)
    {
      hide FillProvider;
      var k :| k in rest;
      ProvideOne(start, done, k, template[k]);
      rest := rest - {k};
      done := done[k := template[k]];
      if k == "provider" && Get(active, k).Null? {
        active := active[k := template[k]];
      } else if k !in active {
        active := active[k := template[k]];
      }
    }
    assert done == template;
  }

  method DescribeSettings(m: Fields, template: Fields) returns (merged: Fields)
    ensures merged == FillSection(m, template, "settings", FillMetadata)
  {
    hide FillMetadata;
    merged := m;
    var start := Section(m, "settings");
    var section := Section(template, "settings");
    var active := start;
    var rest := section.Keys;
    while rest != {}
      invariant rest <= section.Keys && active.Keys == start.Keys
      invariant forall k | k in active && (k in rest || k !in section) :: active[k] == start[k]
      invariant forall k | k in active && k in section && k !in rest ::
        active[k] == Filled(start[k], section[k], FillMetadata)
    {
      var k :| k in rest;
      rest := rest - {k};
      if k in active && active[k].Dict? && section[k].Dict? {
        var setting := DescribeSetting(active[k].fields, section[k].fields);
        active := active[k := Dict(setting)];
      }
    }
    assert active == FillEntries(start, section, FillMetadata);
    if "settings" in m && m["settings"].Dict? {
      merged := merged["settings" := Dict(active)];
    }
  }

  method CompleteProviders(m: Fields, template: Fields) returns (merged: Fields)
    ensures merged == FillSection(m, template, "providers", FillProvider)
  {
    hide FillProvider;
    merged := m;
    var start := Section(m, "providers");
    var section := Section(template, "providers");
    var active := start;
    var rest := section.Keys;
    while rest != {}
      invariant rest <= section.Keys && active.Keys == start.Keys
      invariant forall k | k in active && (k in rest || k !in section) :: active[k] == start[k]
      invariant forall k | k in active && k in section && k !in rest ::
        active[k] == Filled(start[k], section[k], FillProvider)
    {
      var k :| k in rest;
      rest := rest - {k};
      if k in active && active[k].Dict? && section[k].Dict? {
        var provider := CompleteProvider(active[k].fields, section[k].fields);
        active := active[k := Dict(provider)];
      }
    }
    assert active == FillEntries(start, section, FillProvider);
    if "providers" in m && m["providers"].Dict? {
      merged := merged["providers" := Dict(active)];
    }
  }

  method PruneLoop(m: Fields, template: Fields, name: string) returns (merged: Fields)
    ensures merged == PruneSection(m, template, name)
  {
    hide Kept;
    if name in m && !m[name].Dict? {
      merged := m[name := Dict(map[])];
      assert PruneEntries(name, map[], Section(template, name)) == map[];
      return;
    }
    var start, section := Section(m, name), Section(template, name);
    var active := start;
    var rest := start.Keys;
    while rest != {}
      invariant rest <= start.Keys
      invariant active.Keys == set k | k in start && (k in rest || k in section || Kept(name, start[k]))
      invariant forall k | k in active :: active[k] == start[k]
    {
      var k :| k in rest;
      rest := rest - {k};
      if k !in section && !Kept(name, start[k]) {
        active := active - {k};
      }
    }
    assert active == PruneEntries(name, start, section);
    merged := m[name := Dict(active)];
  }

  /** The reconciliation as the source runs it. */
  method RepairSettings(upgraded: Fields, template: Fields) returns (result: Result<Fields>)
    ensures result == Reconcile(upgraded, template)
  {
    hide AddMissing, FillSection, PruneSection;
    var merged := AddSections(upgraded, template);
    merged := DescribeSettings(merged, template);
    merged := CompleteProviders(merged, template);
    if !Get(merged, "settings").Dict? {
      return Err;
    }
    var names := Section(template, "settings").Keys;
    var settings := merged["settings"].fields;
    merged := merged["settings" := Dict(map k | k in settings && k in names :: settings[k])];
    merged := PruneLoop(merged, template, "tools");
    merged := PruneLoop(merged, template, "models");
    merged := PruneLoop(merged, template, "providers");
    return Ok(merged);
  }

  // ---------------------------------------------------------------------------
  // What the reconciliation yields, section by section

  /** The entries of a section, each taken from the active settings when they have it. */
  function Combined(active: Fields, template: Fields, fill: (Fields, Fields) -> Fields): Fields {
    map k | k in active.Keys + template.Keys ::
      if k !in active then template[k] else if k in template then Filled(active[k], template[k], fill) else active[k]
  }

  function NoFill(active: Fields, template: Fields): Fields { active }

  function FillOf(s: string): (Fields, Fields) -> Fields {
    if s == "settings" then FillMetadata else if s == "providers" then FillProvider else NoFill
  }

  function Restricted(m: Fields, names: set<string>): Fields { map k | k in m && k in names :: m[k] }

  predicate Pruned(s: string) { s == "tools" || s == "models" || s == "providers" }

  /** A section of the result, computed directly from the same section of both inputs. */
  function Settled(m: Fields, template: Fields, s: string): Value {
    var section := Section(template, s);
    var all := Combined(Section(m, s), section, FillOf(s));
    if s == "settings" then Dict(Restricted(all, section.Keys))
    else if Pruned(s) then Dict(PruneEntries(s, all, section))
    else if Get(template, s).Dict? then Dict(all)
    else Get(m, s)
  }

  /** A template entry shared with the active settings is not changed by filling it from itself. */
  lemma FillSelf(t: Fields)
    ensures FillMetadata(t, t) == t && FillProvider(t, t) == t
  {
  }

  lemma CombinedIsFilled(active: Fields, template: Fields, fill: (Fields, Fields) -> Fields)
    requires forall t: Fields :: fill(t, t) == t
    ensures FillEntries(template + active, template, fill) == Combined(active, template, fill)
  {
    var both := template + active;
    forall k | k in both ensures FillEntries(both, template, fill)[k] == Combined(active, template, fill)[k] {
      if k !in active && template[k].Dict? {
        assert fill(template[k].fields, template[k].fields) == template[k].fields;
      }
    }
  }

  lemma AddedSection(m: Fields, template: Fields, s: string)
    ensures var added := AddMissing(m, template);
      Section(added, s) == Section(template, s) + Section(m, s)
      && (Get(added, s).Dict? <==> Get(m, s).Dict? || Get(template, s).Dict?)
      && (!Get(template, s).Dict? ==> (s in added <==> s in m) && Get(added, s) == Get(m, s))
  {
  }

  lemma FillTouchesOne(m: Fields, template: Fields, name: string, fill: (Fields, Fields) -> Fields, s: string)
    ensures var filled := FillSection(m, template, name, fill);
      (s in filled <==> s in m) && (Get(filled, s).Dict? <==> Get(m, s).Dict?)
      && (s != name ==> Get(filled, s) == Get(m, s) && Section(filled, s) == Section(m, s))
      && (s == name ==> Section(filled, s) == FillEntries(Section(m, s), Section(template, s), fill))
  {
  }

  lemma PruneTouchesOne(m: Fields, template: Fields, name: string, s: string)
    ensures var pruned := PruneSection(m, template, name);
      (s in pruned <==> s in m || s == name)
      && (s != name ==> Get(pruned, s) == Get(m, s) && Section(pruned, s) == Section(m, s))
      && (s == name ==> Get(pruned, s) == Dict(PruneEntries(s, Section(m, s), Section(template, s))))
  {
  }

  lemma CombinedNoFill(active: Fields, template: Fields)
    ensures Combined(active, template, NoFill) == template + active
  {
  }

  /** Both fills of the source, on the whole mapping. */
  function Prepared(m: Fields, template: Fields): Fields {
    FillSection(FillSection(AddMissing(m, template), template, "settings", FillMetadata), template, "providers",
      FillProvider)
  }

  /** Adding and filling combine each section on its own. */
  lemma PreparedSection(m: Fields, template: Fields, s: string)
    ensures var p := Prepared(m, template);
      Section(p, s) == Combined(Section(m, s), Section(template, s), FillOf(s))
      && (Get(p, s).Dict? <==> Get(m, s).Dict? || Get(template, s).Dict?)
      && (s in p <==> s in m || Get(template, s).Dict?)
      && (s != "settings" && s != "providers" && !Get(template, s).Dict? ==> Get(p, s) == Get(m, s))
  {
    hide AddMissing, FillSection, Section, FillEntries, FillMetadata, FillProvider, NoFill, Combined;
    var added := AddMissing(m, template);
    var described := FillSection(added, template, "settings", FillMetadata);
    var active, section := Section(m, s), Section(template, s);
    AddedSection(m, template, s);
    PresentAfterAdding(m, template, s);
    FillTouchesOne(added, template, "settings", FillMetadata, s);
    FillTouchesOne(described, template, "providers", FillProvider, s);
    CombinedNoFill(active, section);
    forall t: Fields ensures FillMetadata(t, t) == t && FillProvider(t, t) == t { FillSelf(t); }
    CombinedIsFilled(active, section, FillMetadata);
    CombinedIsFilled(active, section, FillProvider);
  }

  lemma PresentAfterAdding(m: Fields, template: Fields, s: string)
    ensures s in AddMissing(m, template) <==> s in m || Get(template, s).Dict?
  {
  }

  /** The reconciliation fails exactly when neither side has a dictionary of settings; otherwise
      each section of the result is the one computed directly from that section alone. */
  lemma ReconcileSettles(m: Fields, template: Fields, s: string)
    ensures Reconcile(m, template).Ok? <==> Get(m, "settings").Dict? || Get(template, "settings").Dict?
    ensures Reconcile(m, template).Ok? ==>
      var r := Reconcile(m, template).value;
      (s in r <==> s in m || Get(template, s).Dict? || s == "settings" || Pruned(s)) &&
        Get(r, s) == Settled(m, template, s)
  {
    hide AddMissing, FillSection, Section, FillMetadata, FillProvider, NoFill, Combined, PruneSection, PruneEntries;
    PreparedSection(m, template, "settings");
    PreparedSection(m, template, s);
    var p := Prepared(m, template);
    assert Reconcile(m, template).Ok? <==> Get(p, "settings").Dict?;
    if Get(p, "settings").Dict? {
      var kept := PruneSettings(p, template).value;
      KeptSection(p, template, s);
      var tools := PruneSection(kept, template, "tools");
      var models := PruneSection(tools, template, "models");
      PruneTouchesOne(kept, template, "tools", s);
      PruneTouchesOne(tools, template, "models", s);
      PruneTouchesOne(models, template, "providers", s);
      SettledOther(m, template, p, s);
    }
  }

  lemma KeptSection(p: Fields, template: Fields, s: string)
    requires Get(p, "settings").Dict?
    ensures var kept := PruneSettings(p, template).value;
      (s in kept <==> s in p) && (s != "settings" ==> Get(kept, s) == Get(p, s) && Section(kept, s) == Section(p, s))
      && (s == "settings" ==> Get(kept, s) == Dict(Restricted(Section(p, s), Section(template, s).Keys)))
  {
  }

  lemma SettledOther(m: Fields, template: Fields, p: Fields, s: string)
    requires Section(p, s) == Combined(Section(m, s), Section(template, s), FillOf(s))
    requires s != "settings" && s != "providers" && !Get(template, s).Dict? ==> Get(p, s) == Get(m, s)
    requires Get(p, s).Dict? <==> Get(m, s).Dict? || Get(template, s).Dict?
    ensures s != "settings" && !Pruned(s) ==> Get(p, s) == Settled(m, template, s)
  {
    hide Combined, PruneEntries;
    assert Get(p, s).Dict? ==> Get(p, s) == Dict(Section(p, s));
  }

  /** The upgraded mapping always has a dictionary of settings, so reconciling it never fails. */
  lemma UpgradedNeverFails(upgraded: Fields, template: Fields)
    requires Get(upgraded, "settings").Dict?
    ensures Reconcile(upgraded, template).Ok?
  {
    hide Reconcile;
    ReconcileSettles(upgraded, template, "settings");
  }

  // ---------------------------------------------------------------------------
  // Reconciling again

  ghost predicate Idempotent(fill: (Fields, Fields) -> Fields) {
    (forall t: Fields :: fill(t, t) == t) && forall a: Fields, t: Fields :: fill(fill(a, t), t) == fill(a, t)
  }

  lemma DescribeTwice(a: Fields, t: Fields)
    ensures FillMetadata(FillMetadata(a, t), t) == FillMetadata(a, t)
  {
    var once := FillMetadata(a, t);
    forall k | k in t && k in METADATA && Get(once, k).Null? ensures k in once && once[k] == t[k] { }
  }

  lemma ProvideTwice(a: Fields, t: Fields)
    ensures FillProvider(FillProvider(a, t), t) == FillProvider(a, t)
  {
    var once := FillProvider(a, t);
    assert t.Keys <= once.Keys;
    forall k | k in t && once[k].Null? && k == "provider" ensures once[k] == t[k] { }
  }

  lemma FillsAreIdempotent(s: string)
    ensures Idempotent(FillOf(s))
  {
    hide FillMetadata, FillProvider;
    forall t: Fields ensures FillOf(s)(t, t) == t { FillSelf(t); }
    forall a: Fields, t: Fields ensures FillOf(s)(FillOf(s)(a, t), t) == FillOf(s)(a, t) {
      DescribeTwice(a, t);
      ProvideTwice(a, t);
    }
  }

  lemma FilledTwice(a: Value, t: Value, fill: (Fields, Fields) -> Fields)
    requires Idempotent(fill)
    ensures Filled(Filled(a, t, fill), t, fill) == Filled(a, t, fill) && Filled(t, t, fill) == t
  {
    if a.Dict? && t.Dict? { assert fill(fill(a.fields, t.fields), t.fields) == fill(a.fields, t.fields); }
    if t.Dict? { assert fill(t.fields, t.fields) == t.fields; }
  }

  /** Any part of the combined entries that keeps the template's combines to itself again. */
  lemma CombinedAgain(active: Fields, section: Fields, fill: (Fields, Fields) -> Fields, part: Fields)
    requires Idempotent(fill)
    requires section.Keys <= part.Keys <= Combined(active, section, fill).Keys
    requires forall k | k in part :: part[k] == Combined(active, section, fill)[k]
    ensures Combined(part, section, fill) == part
  {
    hide Filled, Idempotent;
    forall k | k in part ensures Combined(part, section, fill)[k] == part[k] {
      if k in section {
        if k in active { FilledTwice(active[k], section[k], fill); } else { FilledTwice(section[k], section[k], fill); }
      }
    }
    assert Combined(part, section, fill).Keys == part.Keys;
  }

  lemma SettledAgain(m: Fields, r: Fields, template: Fields, s: string)
    requires Get(r, s) == Settled(m, template, s)
    ensures Settled(r, template, s) == Get(r, s)
  {
    hide Kept, Filled, Idempotent, FillOf;
    var section := Section(template, s);
    var all := Combined(Section(m, s), section, FillOf(s));
    FillsAreIdempotent(s);
    var part :=
      if s == "settings" then Restricted(all, section.Keys)
      else if Pruned(s) then PruneEntries(s, all, section)
      else all;
    CombinedAgain(Section(m, s), section, FillOf(s), part);
    if s == "settings" || Pruned(s) || Get(template, s).Dict? {
      assert Section(r, s) == part;
      assert s == "settings" ==> Restricted(part, section.Keys) == part;
      assert Pruned(s) ==> PruneEntries(s, part, section) == part;
    }
  }

  /** Reconciling a reconciled mapping with the same template changes nothing. */
  lemma ReconcileIdempotent(m: Fields, template: Fields)
    requires Reconcile(m, template).Ok?
    ensures Reconcile(Reconcile(m, template).value, template) == Reconcile(m, template)
  {
    hide Reconcile, Settled;
    var r := Reconcile(m, template).value;
    SettledIsDict(m, template);
    ReconcileSettles(m, template, "settings");
    ReconcileSettles(r, template, "settings");
    var again := Reconcile(r, template).value;
    forall s ensures (s in again <==> s in r) && Get(again, s) == Get(r, s) {
      ReconcileSettles(m, template, s);
      ReconcileSettles(r, template, s);
      SettledAgain(m, r, template, s);
    }
    assert forall s | s in r :: again[s] == Get(again, s) && r[s] == Get(r, s);
    assert again == r;
  }

  lemma SettledIsDict(m: Fields, template: Fields)
    ensures Settled(m, template, "settings").Dict?
  {
  }

  // ---------------------------------------------------------------------------
  // What survives

  /** The settings are exactly the template's.  One the store had keeps its value: a value that
      is not a dictionary as it is, a dictionary in every field but metadata that was null. */
  lemma SettingsFollowTemplate(m: Fields, template: Fields, k: string)
    requires Reconcile(m, template).Ok?
    ensures var before, after, section := Section(m, "settings"), Section(Reconcile(m, template).value, "settings"),
      Section(template, "settings");
      after.Keys == section.Keys
      && (k in section && k !in before ==> after[k] == section[k])
      && (k in section && k in before && !(before[k].Dict? && section[k].Dict?) ==> after[k] == before[k])
      && (k in section && k in before && before[k].Dict? && section[k].Dict? ==>
        after[k].Dict? && FilledFrom(before[k].fields, section[k].fields, after[k].fields))
  {
    hide Reconcile;
    ReconcileSettles(m, template, "settings");
  }

  /** Fields grow only by metadata of the template, which replaces nothing but nulls. */
  predicate FilledFrom(before: Fields, section: Fields, after: Fields) {
    var metadata := {"description", "category", "restart_required"};
    after.Keys == before.Keys + section.Keys * metadata
    && forall f | f in after ::
         var kept := f in before && (!before[f].Null? || f !in metadata || f !in section);
         after[f] == if kept then before[f] else section[f]
  }

  /** Any other section of the template gains the entries it lacked and keeps those it had; a section
      that the template does not have as a dictionary stays as it was, and none is added. */
  lemma OtherSections(m: Fields, template: Fields, s: string)
    requires Reconcile(m, template).Ok? && s !in {"settings", "tools", "models", "providers"}
    ensures var r := Reconcile(m, template).value;
      && (Get(template, s).Dict? ==>
            Get(r, s).Dict? && Get(r, s).fields == Get(template, s).fields + Section(m, s))
      && (!Get(template, s).Dict? ==> (s in r <==> s in m) && Get(r, s) == Get(m, s))
  {
    hide Reconcile;
    ReconcileSettles(m, template, s);
    CombinedNoFill(Section(m, s), Section(template, s));
  }

  lemma KeptMeaning(name: string, entry: Value)
    ensures name == "tools" || name == "providers" ==>
      (Kept(name, entry) <==> entry.Dict? && Get(entry.fields, "user_editable") == Bool(true))
    ensures name == "models" ==>
      (!Kept(name, entry) <==>
         entry.Dict? && Get(entry.fields, "user_editable") == Bool(false) &&
         Get(entry.fields, "managed_id") in {Null, Bool(false), Number(0), Text(""), List([]), Dict(map[])})
  {
  }

  /** A tool, model or provider outside the template stays, unchanged, exactly when it is
      editable by the user or a managed model: a tool or provider must say that it is editable, a
      model must not say that it is not, or have a managed id.  Every template entry is there. */
  lemma OthersKeptVerbatim(m: Fields, template: Fields, name: string, k: string)
    requires Reconcile(m, template).Ok? && Pruned(name)
    ensures var before, after, section := Section(m, name), Section(Reconcile(m, template).value, name),
      Section(template, name);
      section.Keys <= after.Keys <= section.Keys + before.Keys
      && (k in before && k !in section ==>
        && (k in after ==> after[k] == before[k])
        && (name != "models" ==>
              (k in after <==> before[k].Dict? && Get(before[k].fields, "user_editable") == Bool(true)))
        && (name == "models" ==>
              (k !in after <==>
                 before[k].Dict? && Get(before[k].fields, "user_editable") == Bool(false) &&
                 Get(before[k].fields, "managed_id") in
                   {Null, Bool(false), Number(0), Text(""), List([]), Dict(map[])})))
      && (k in before && k in section && !(name == "providers" && before[k].Dict? && section[k].Dict?) ==>
        after[k] == before[k])
      && (k !in before && k in section ==> after[k] == section[k])
  {
    hide Reconcile, Kept;
    ReconcileSettles(m, template, name);
    if k in Section(m, name) { KeptMeaning(name, Section(m, name)[k]); }
  }

  /** A provider keeps every field it had, except that a null "provider" is filled in, and gains
      every field of the template. */
  lemma ProviderFields(m: Fields, template: Fields, k: string, f: string)
    requires Reconcile(m, template).Ok?
    requires Get(Section(m, "providers"), k).Dict? && Get(Section(template, "providers"), k).Dict?
    ensures var before, section := Section(m, "providers")[k].fields, Section(template, "providers")[k].fields;
      var after := Get(Section(Reconcile(m, template).value, "providers"), k);
      after.Dict? && after.fields.Keys == before.Keys + section.Keys
      && (f in before && !(f == "provider" && before[f].Null? && f in section) ==> after.fields[f] == before[f])
      && (f in section && (f !in before || (f == "provider" && before[f].Null?)) ==> after.fields[f] == section[f])
  {
    hide Reconcile, Kept;
    ReconcileSettles(m, template, "providers");
  }
}
