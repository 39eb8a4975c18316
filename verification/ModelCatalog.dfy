// Normalising a downloaded model catalog against the bundled one.
module ModelCatalog {
  import opened Wrappers

  datatype Value =
    | Null
    | Bool(b: bool)
    | Int(n: int)
    | Float(r: real)
    | Text(s: string)
    | List(items: seq<Value>)
    | Dict(entries: map<Key, Value>)

  // The keys of an object inside a field.
  datatype Key = EffortKey | DescriptionKey | ModeKey | LimitKey | TemplateKey | OtherKey(name: string)

  // The keys of a model; every key that is not named here is `Other`.
  datatype Field =
    | Slug | DisplayName
    | Description | CompHash
    | SupportedInApi | SupportVerbosity | SupportsImageDetailOriginal | SupportsSearchTool
    | SupportsReasoningSummaryParameter
    | ContextWindow | MaxContextWindow | AutoCompactTokenLimit
    | ShellType | Visibility | DefaultReasoningLevel | DefaultReasoningSummary | DefaultVerbosity
    | ApplyPatchToolType | WebSearchToolType
    | Priority | EffectiveContextWindowPercent | SupportedReasoningLevels | TruncationPolicy
    | InputModalities | MinimalClientVersion
    | BaseInstructions | ModelMessages | Other(name: string)

  type Model = map<Field, Value>

  // A catalog; `None` for anything that is no object with a list of models.
  datatype Catalog = Catalog(models: seq<Option<Model>>, extra: bool) | NoCatalog

  const DEFAULT_MODEL: string := "deepseek-flash"
  const PREFIX: string := "deepseek-"

  predicate Capability(f: Field)
  {
    !f.BaseInstructions? && !f.ModelMessages? && !f.Other?
  }

  const REQUIRED: set<Field> :=
    {Slug, DisplayName, SupportedReasoningLevels, ShellType, Visibility, SupportedInApi, Priority, SupportVerbosity,
     TruncationPolicy, ContextWindow, InputModalities}

  // ----- field checks -----

  // What the host language decides: which characters `strip` removes, and the
  // three numbers of a version text, if it is one.
  type Version = (nat, nat, nat)

  datatype Host = Host(blank: char -> bool, version: string -> Option<Version>)

  predicate VersionLess(a: Version, b: Version)
  {
    a.0 < b.0 || (a.0 == b.0 && (a.1 < b.1 || (a.1 == b.1 && a.2 < b.2)))
  }

  predicate Positive63(v: Value) { v.Int? && 0 < v.n < 0x8000_0000_0000_0000 }

  predicate Effort(v: Value)
  {
    v == Null || (v.Text? && v.s in {"none", "minimal", "low", "medium", "high", "xhigh", "max", "ultra"})
  }

  predicate ReasoningLevel(v: Value)
  {
    && v.Dict? && EffortKey in v.entries && v.entries[EffortKey].Text? && Effort(v.entries[EffortKey])
    && DescriptionKey in v.entries && v.entries[DescriptionKey].Text?
  }

  predicate Modality(v: Value) { v.Text? && v.s in {"text", "image"} }

  predicate ValidField(f: Field, v: Value, host: Host)
  {
    match f
    case Slug | DisplayName => v.Text? && exists i :: 0 <= i < |v.s| && !host.blank(v.s[i])
    case Description | CompHash => v == Null || v.Text?
    case SupportedInApi | SupportVerbosity | SupportsImageDetailOriginal | SupportsSearchTool
       | SupportsReasoningSummaryParameter => v.Bool?
    case ContextWindow | MaxContextWindow | AutoCompactTokenLimit => v == Null || Positive63(v)
    case ShellType => v.Text? && v.s in {"shell_command", "unified_exec", "default", "local", "disabled"}
    case Visibility => v.Text? && v.s in {"list", "hide", "none"}
    case DefaultReasoningLevel => Effort(v)
    case DefaultReasoningSummary => v.Text? && v.s in {"none", "auto", "concise", "detailed"}
    case DefaultVerbosity => v == Null || (v.Text? && v.s in {"low", "medium", "high"})
    case ApplyPatchToolType => v == Null || v == Text("freeform")
    case WebSearchToolType => v.Text? && v.s in {"text", "text_and_image"}
    case Priority => v.Int? && -0x8000_0000 <= v.n < 0x8000_0000
    case EffectiveContextWindowPercent => v.Int? && 0 < v.n <= 100
    case MinimalClientVersion => v.Text? && host.version(v.s).Some?
    case InputModalities =>
      v.List? && v.items != [] && (forall i :: 0 <= i < |v.items| ==> Modality(v.items[i])) && Text("text") in v.items
    case TruncationPolicy =>
      && v.Dict? && ModeKey in v.entries && v.entries[ModeKey] in {Text("bytes"), Text("tokens")}
      && LimitKey in v.entries && Positive63(v.entries[LimitKey])
    case SupportedReasoningLevels =>
      v.List? && v.items != [] && forall i :: 0 <= i < |v.items| ==> ReasoningLevel(v.items[i])
    case BaseInstructions | ModelMessages | Other(_) => false
  }

  predicate SlugChar(c: char)
  {
    'a' <= c <= 'z' || 'A' <= c <= 'Z' || '0' <= c <= '9' || c == '.' || c == '_' || c == '-'
  }

  predicate SlugText(s: string)
  {
    PREFIX < s && forall i :: |PREFIX| <= i < |s| ==> SlugChar(s[i])
  }

  // ----- one model -----

  // What a catalog is checked against; `Shipped` gives the checks themselves.
  datatype Policy = Policy(
    templates: seq<Model>, instructions: string, client: Version, version: string -> Option<Version>,
    valid: (Field, Value) -> bool, slugText: string -> bool,
    defaultModel: string, listed: Value, neededEffort: Value, required: set<Field>)

  function Shipped(templates: seq<Model>, instructions: string, client: Version, host: Host): Policy
  {
    Policy(templates, instructions, client, host.version, (f, v) => ValidField(f, v, host), SlugText,
      DEFAULT_MODEL, Text("list"), Text("high"), REQUIRED)
  }

  // All capability fields are well formed, and the required ones are there.
  predicate WellFormed(m: Model, p: Policy)
  {
    && p.required <= m.Keys
    && (forall f :: f in m && Capability(f) ==> p.valid(f, m[f]))
    && Slug in m && m[Slug].Text? && p.slugText(m[Slug].s)
  }

  predicate ClientNewEnough(m: Model, p: Policy)
  {
    MinimalClientVersion in m && m[MinimalClientVersion].Text? ==>
      var minimum := p.version(m[MinimalClientVersion].s);
      minimum.Some? && !VersionLess(p.client, minimum.value)
  }

  function SlugOf(m: Model): string
  {
    if Slug in m && m[Slug].Text? then m[Slug].s else ""
  }

  function Find(models: seq<Model>, slug: string): Option<Model>
  {
    if models == [] then None
    else if SlugOf(models[0]) == slug then Some(models[0])
    else Find(models[1..], slug)
  }

  function Messages(instructions: string): Value { Dict(map[TemplateKey := Text(instructions)]) }

  // The template with the source's capabilities and our own instructions.
  function Overlay(template: Model, source: Model, instructions: string): Model
  {
    (map f | f in template.Keys + source.Keys
         && f != BaseInstructions && f != ModelMessages && (f in template || Capability(f)) ::
         if f in source && Capability(f) then source[f] else template[f])
    [ModelMessages := Messages(instructions)]
  }

  function Get(m: Model, f: Field): Value { if f in m then m[f] else Null }

  predicate Names(level: Value, effort: Value)
  {
    level.Dict? && EffortKey in level.entries && level.entries[EffortKey] == effort
  }

  predicate Offers(levels: Value, effort: Value)
  {
    effort.Text? && levels.List?
    && exists i :: 0 <= i < |levels.items| && Names(levels.items[i], effort)
  }

  predicate Coherent(m: Model)
  {
    && Offers(Get(m, SupportedReasoningLevels), Get(m, DefaultReasoningLevel))
    && Get(m, ContextWindow).Int?
    && (Get(m, MaxContextWindow) == Null
        || (Get(m, MaxContextWindow).Int? && Get(m, MaxContextWindow).n >= Get(m, ContextWindow).n))
  }

  // The last template of a name is the one that is kept; names are unique in
  // every bundled catalog that normalises.
  function Template(p: Policy, slug: string): Option<Model>
  {
    if Find(p.templates, slug).Some? then Find(p.templates, slug) else Find(p.templates, p.defaultModel)
  }

  predicate Accepts(source: Model, p: Policy) { WellFormed(source, p) && ClientNewEnough(source, p) }

  function NormalizeModel(source: Model, p: Policy): Option<Model>
  {
    if !Accepts(source, p) then None
    else
      var template := Template(p, SlugOf(source));
      if template.None? then None
      else
        var m := Overlay(template.value, source, p.instructions);
        if Coherent(m) then Some(m) else None
  }

  // ----- the whole catalog -----

  // One more model, unless it is refused or its name was seen before.
  function Append(done: Option<seq<Model>>, slug: string, m: Option<Model>): (r: Option<seq<Model>>)
    ensures r.Some? ==> done.Some? && m.Some? && r.value == done.value + [m.value]
  {
    if done.None? || m.None? || Find(done.value, slug).Some? then None else Some(done.value + [m.value])
  }

  function NormalizeAll(models: seq<Option<Model>>, p: Policy): (r: Option<seq<Model>>)
    ensures r.Some? ==> |r.value| == |models|
    decreases |models|
  {
    if models == [] then Some([])
    else
      var front, source := NormalizeAll(models[..|models| - 1], p), models[|models| - 1];
      if source.None? then None else Append(front, SlugOf(source.value), NormalizeModel(source.value, p))
  }

  predicate DefaultUsable(models: seq<Model>, p: Policy)
  {
    var m := Find(models, p.defaultModel);
    && m.Some? && Get(m.value, Visibility) == p.listed && Get(m.value, SupportedInApi) == Bool(true)
    && Offers(Get(m.value, SupportedReasoningLevels), p.neededEffort)
  }

  function Normalize(data: Catalog, p: Policy): Option<seq<Model>>
  {
    if data.NoCatalog? || |data.models| == 0 || |data.models| > 100 then None
    else
      var models := NormalizeAll(data.models, p);
      if models.Some? && DefaultUsable(models.value, p) then models else None
  }

  // A catalog as it is written.
  function Written(models: seq<Model>): Catalog
  {
    Catalog(seq(|models|, i requires 0 <= i < |models| => Some(models[i])), false)
  }

  method NormalizeCatalog(data: Catalog, p: Policy) returns (result: Option<seq<Model>>)
    ensures result == Normalize(data, p)
  {
    if data.NoCatalog? || !(0 < |data.models| <= 100) {
      return None;
    }
    var models: seq<Model>, seen: set<string> := [], {};
    for index := 0 to |data.models|
      invariant NormalizeAll(data.models[..index], p) == Some(models)
      invariant SlugsOf(models, seen)
    {
      var source := data.models[index];
      var m := if source.None? then None else NormalizeModel(source.value, p);
      NextModel(data.models, index, models, p);
      if m.None? || SlugOf(source.value) in seen {
        ErrStays(data.models, index + 1, p);
        return None;
      }
      NextSlug(models, seen, source.value, p);
      seen := seen + {SlugOf(source.value)};
      models := models + [m.value];
    }
    assert data.models[..|data.models|] == data.models;
    return if DefaultUsable(models, p) then Some(models) else None;
  }

  ghost predicate SlugsOf(models: seq<Model>, seen: set<string>)
  {
    forall slug :: slug in seen <==> Find(models, slug).Some?
  }

  lemma NextModel(models: seq<Option<Model>>, index: nat, done: seq<Model>, p: Policy)
    requires index < |models| && NormalizeAll(models[..index], p) == Some(done)
    ensures NormalizeAll(models[..index + 1], p) == (
      var source := models[index];
      if source.None? || NormalizeModel(source.value, p).None? || Find(done, SlugOf(source.value)).Some? then None
      else Some(done + [NormalizeModel(source.value, p).value]))
  {
    assert models[..index + 1][..index] == models[..index];
  }

  lemma NextSlug(models: seq<Model>, seen: set<string>, source: Model, p: Policy)
    requires SlugsOf(models, seen) && NormalizeModel(source, p).Some?
    ensures SlugsOf(models + [NormalizeModel(source, p).value], seen + {SlugOf(source)})
  {
    var m := NormalizeModel(source, p).value;
    KeepsSlug(source, p);
    forall slug ensures slug in seen + {SlugOf(source)} <==> Find(models + [m], slug).Some? {
      FindAppend(models, m, slug);
    }
  }

  lemma {:induction false} ErrStays(models: seq<Option<Model>>, n: nat, p: Policy)
    requires n <= |models| && NormalizeAll(models[..n], p).None?
    ensures NormalizeAll(models, p).None?
    decreases |models|
  {
    if n < |models| {
      assert models[..|models| - 1][..n] == models[..n];
      ErrStays(models[..|models| - 1], n, p);
    } else {
      assert models[..n] == models;
    }
  }

  lemma {:induction false} FindAppend(models: seq<Model>, m: Model, slug: string)
    ensures Find(models + [m], slug) == (
      if Find(models, slug).Some? then Find(models, slug) else if SlugOf(m) == slug then Some(m) else None)
  {
    if models == [] {
      assert models + [m] == [m] && [m][1..] == [];
    } else {
      assert (models + [m])[1..] == models[1..] + [m];
      FindAppend(models[1..], m, slug);
    }
  }

  lemma KeepsSlug(source: Model, p: Policy)
    requires NormalizeModel(source, p).Some?
    ensures SlugOf(NormalizeModel(source, p).value) == SlugOf(source)
  {
  }

  // ----- what a normalised catalog is -----

  // The bundled catalog passes its own checks.
  ghost predicate Bundled(p: Policy)
  {
    (forall f :: f in p.required ==> Capability(f)) && Normalize(Written(p.templates), p).Some?
  }

  lemma {:induction false} EachNormal(models: seq<Option<Model>>, p: Policy, i: nat)
    requires NormalizeAll(models, p).Some? && i < |models|
    ensures models[i].Some? && NormalizeModel(models[i].value, p) == Some(NormalizeAll(models, p).value[i])
    decreases |models|
  {
    if i < |models| - 1 { EachNormal(models[..|models| - 1], p, i); }
  }

  lemma {:induction false} FoundIn(models: seq<Model>, slug: string) returns (i: nat)
    requires Find(models, slug).Some?
    ensures i < |models| && Find(models, slug) == Some(models[i]) && SlugOf(models[i]) == slug
  {
    if SlugOf(models[0]) == slug {
      i := 0;
    } else {
      var j := FoundIn(models[1..], slug);
      i := j + 1;
    }
  }

  lemma TemplateIsSound(p: Policy, slug: string)
    requires Bundled(p) && Template(p, slug).Some?
    ensures Accepts(Template(p, slug).value, p)
  {
    var i := FoundIn(p.templates, if Find(p.templates, slug).Some? then slug else p.defaultModel);
    EachTemplate(p, i);
  }

  lemma EachTemplate(p: Policy, i: nat)
    requires Bundled(p) && i < |p.templates|
    ensures Accepts(p.templates[i], p)
  {
    EachAccepted(Written(p.templates).models, p, i);
  }

  lemma EachAccepted(models: seq<Option<Model>>, p: Policy, i: nat)
    requires NormalizeAll(models, p).Some? && i < |models|
    ensures models[i].Some? && Accepts(models[i].value, p)
  {
    EachNormal(models, p, i);
  }

  // Nothing but capabilities comes from outside.
  lemma OnlyCapabilities(source: Model, p: Policy, f: Field)
    requires NormalizeModel(source, p).Some? && !Capability(f)
    ensures var m, template := NormalizeModel(source, p).value, Template(p, SlugOf(source)).value;
      if f == ModelMessages then f in m && m[f] == Messages(p.instructions)
      else if f == BaseInstructions then f !in m
      else (f in m <==> f in template) && (f in m ==> m[f] == template[f])
  {
  }

  // And every capability of a download does, the rest from the template.
  lemma AllCapabilities(source: Model, p: Policy, f: Field)
    requires NormalizeModel(source, p).Some? && Capability(f)
    ensures var m, template := NormalizeModel(source, p).value, Template(p, SlugOf(source)).value;
      if f in source then f in m && m[f] == source[f]
      else (f in m <==> f in template) && (f in m ==> m[f] == template[f])
  {
  }

  // ----- which catalogs are accepted -----

  ghost predicate EachAccepts(models: seq<Option<Model>>, p: Policy)
  {
    forall i :: 0 <= i < |models| ==> models[i].Some? && NormalizeModel(models[i].value, p).Some?
  }

  ghost predicate SlugsDiffer(models: seq<Option<Model>>)
  {
    forall i, j :: 0 <= i < j < |models| && models[i].Some? && models[j].Some? ==>
      SlugOf(models[i].value) != SlugOf(models[j].value)
  }

  // The first model of a name is the only one, or there is none.
  lemma {:induction false} FindExactly(models: seq<Model>, slug: string)
    ensures Find(models, slug).Some? <==> exists i :: 0 <= i < |models| && SlugOf(models[i]) == slug
    ensures Find(models, slug).Some? ==> exists i ::
      0 <= i < |models| && SlugOf(models[i]) == slug && Find(models, slug) == Some(models[i])
  {
    if models != [] {
      assert models == [models[0]] + models[1..];
      FindExactly(models[1..], slug);
    }
  }

  // Every result is its model's normal form and has its name.
  lemma ResultsOf(models: seq<Option<Model>>, p: Policy, i: nat)
    requires NormalizeAll(models, p).Some? && i < |models|
    ensures models[i].Some? && NormalizeModel(models[i].value, p) == Some(NormalizeAll(models, p).value[i])
    ensures SlugOf(NormalizeAll(models, p).value[i]) == SlugOf(models[i].value)
  {
    EachNormal(models, p, i);
    KeepsSlug(models[i].value, p);
  }

  ghost predicate Distinct(models: seq<Model>)
  {
    forall i, j :: 0 <= i < j < |models| ==> SlugOf(models[i]) != SlugOf(models[j])
  }

  lemma NewName(done: seq<Model>, m: Model)
    requires Distinct(done) && Find(done, SlugOf(m)).None?
    ensures Distinct(done + [m])
  {
    FindExactly(done, SlugOf(m));
  }

  lemma NoneNamed(done: seq<Model>, slug: string)
    requires forall i :: 0 <= i < |done| ==> SlugOf(done[i]) != slug
    ensures Find(done, slug).None?
  {
    FindExactly(done, slug);
  }

  lemma AppendExactly(done: Option<seq<Model>>, slug: string, m: Option<Model>)
    ensures Append(done, slug, m).Some? <==> done.Some? && m.Some? && Find(done.value, slug).None?
    ensures Append(done, slug, m).Some? ==> Append(done, slug, m).value == done.value + [m.value]
  {
  }

  lemma {:induction false} NamesDiffer(models: seq<Option<Model>>, p: Policy)
    requires NormalizeAll(models, p).Some?
    ensures Distinct(NormalizeAll(models, p).value)
    decreases |models|
  {
    if models != [] {
      var n := |models| - 1;
      NamesDiffer(models[..n], p);
      ResultsOf(models, p, n);
      var m := NormalizeAll(models, p).value[n];
      AppendExactly(NormalizeAll(models[..n], p), SlugOf(m), Some(m));
      NewName(NormalizeAll(models[..n], p).value, m);
    }
  }

  lemma {:induction false} DifferentAccepted(models: seq<Option<Model>>, p: Policy)
    requires EachAccepts(models, p) && SlugsDiffer(models)
    ensures NormalizeAll(models, p).Some?
    decreases |models|
  {
    if models != [] {
      var n := |models| - 1;
      assert EachAccepts(models[..n], p) && SlugsDiffer(models[..n]);
      DifferentAccepted(models[..n], p);
      LastIsNew(models, p);
    }
  }

  lemma LastIsNew(models: seq<Option<Model>>, p: Policy)
    requires models != [] && NormalizeAll(models[..|models| - 1], p).Some? && SlugsDiffer(models)
    requires models[|models| - 1].Some?
    ensures Find(NormalizeAll(models[..|models| - 1], p).value, SlugOf(models[|models| - 1].value)).None?
  {
    var n := |models| - 1;
    var done, slug := NormalizeAll(models[..n], p).value, SlugOf(models[n].value);
    forall i: nat | i < n ensures SlugOf(done[i]) != slug {
      ResultsOf(models[..n], p, i);
    }
    NoneNamed(done, slug);
  }

  // A model of the default name, listed, supported and with the needed effort.
  predicate UsableDefault(m: Model, p: Policy)
  {
    && SlugOf(m) == p.defaultModel
    && Get(m, Visibility) == p.listed && Get(m, SupportedInApi) == Bool(true)
    && Offers(Get(m, SupportedReasoningLevels), p.neededEffort)
  }

  lemma DefaultExactly(models: seq<Model>, p: Policy)
    requires Distinct(models)
    ensures DefaultUsable(models, p) <==> exists i :: 0 <= i < |models| && UsableDefault(models[i], p)
  {
    FindExactly(models, p.defaultModel);
  }

  ghost predicate HasDefault(models: seq<Option<Model>>, p: Policy)
    requires EachAccepts(models, p)
  {
    exists i :: 0 <= i < |models| && UsableDefault(NormalizeModel(models[i].value, p).value, p)
  }

  // The results are each model's normal form, in order.
  ghost predicate NormalForms(models: seq<Option<Model>>, done: seq<Model>, p: Policy)
  {
    && |done| == |models|
    && forall i :: 0 <= i < |models| ==> models[i].Some? && NormalizeModel(models[i].value, p) == Some(done[i])
  }

  lemma SameDefault(models: seq<Option<Model>>, done: seq<Model>, p: Policy)
    requires EachAccepts(models, p) && NormalForms(models, done, p)
    ensures HasDefault(models, p) <==> exists i :: 0 <= i < |done| && UsableDefault(done[i], p)
  {
    forall i | 0 <= i < |done| ensures NormalizeModel(models[i].value, p).value == done[i] {
    }
  }

  lemma AllAccepted(models: seq<Option<Model>>, p: Policy)
    requires NormalizeAll(models, p).Some?
    ensures EachAccepts(models, p) && SlugsDiffer(models)
    ensures NormalForms(models, NormalizeAll(models, p).value, p) && Distinct(NormalizeAll(models, p).value)
  {
    forall i: nat | i < |models|
      ensures models[i].Some? && NormalizeModel(models[i].value, p) == Some(NormalizeAll(models, p).value[i])
      ensures SlugOf(NormalizeAll(models, p).value[i]) == SlugOf(models[i].value)
    {
      ResultsOf(models, p, i);
    }
    NamesDiffer(models, p);
  }

  // A catalog is accepted exactly if it holds 1 to 100 models, each acceptable
  // by itself, with different names, and the default model is among them and
  // its normal form usable.
  lemma AcceptedExactly(data: Catalog, p: Policy)
    ensures Normalize(data, p).Some? <==>
      && data.Catalog? && 1 <= |data.models| <= 100
      && EachAccepts(data.models, p) && SlugsDiffer(data.models) && HasDefault(data.models, p)
    ensures Normalize(data, p).Some? ==> NormalForms(data.models, Normalize(data, p).value, p)
  {
    if data.Catalog? {
      if NormalizeAll(data.models, p).Some? {
        var done := NormalizeAll(data.models, p).value;
        AllAccepted(data.models, p);
        DefaultExactly(done, p);
        SameDefault(data.models, done, p);
      } else if EachAccepts(data.models, p) && SlugsDiffer(data.models) {
        DifferentAccepted(data.models, p);
      }
    }
  }

  lemma OverlayTwice(template: Model, source: Model, instructions: string)
    ensures var once := Overlay(template, source, instructions); Overlay(template, once, instructions) == once
  {
    var once := Overlay(template, source, instructions);
    var twice := Overlay(template, once, instructions);
    forall f ensures f in twice <==> f in once {
    }
    forall f | f in once ensures twice[f] == once[f] {
    }
    assert twice == once;
  }

  lemma OverlayAccepted(template: Model, source: Model, p: Policy)
    requires Accepts(template, p) && Accepts(source, p) && forall f :: f in p.required ==> Capability(f)
    ensures var m := Overlay(template, source, p.instructions); Accepts(m, p) && SlugOf(m) == SlugOf(source)
  {
    var m, f := Overlay(template, source, p.instructions), MinimalClientVersion;
    assert f in m ==> m[f] == if f in source then source[f] else template[f];
    assert m[Slug] == source[Slug];
  }

  lemma ModelIdempotent(source: Model, p: Policy)
    requires Bundled(p) && NormalizeModel(source, p).Some?
    ensures NormalizeModel(NormalizeModel(source, p).value, p) == NormalizeModel(source, p)
  {
    var template := Template(p, SlugOf(source)).value;
    TemplateIsSound(p, SlugOf(source));
    OverlayAccepted(template, source, p);
    OverlayTwice(template, source, p.instructions);
  }

  lemma WrittenAppend(done: seq<Model>, m: Model)
    ensures Written(done + [m]).models == Written(done).models + [Some(m)]
  {
  }

  lemma NormalizeAppend(front: seq<Option<Model>>, source: Model, p: Policy)
    ensures NormalizeAll(front + [Some(source)], p)
         == Append(NormalizeAll(front, p), SlugOf(source), NormalizeModel(source, p))
  {
    assert (front + [Some(source)])[..|front|] == front;
  }

  lemma AppendNormal(done: seq<Model>, m: Model, p: Policy)
    requires NormalizeAll(Written(done).models, p) == Some(done)
    requires NormalizeModel(m, p) == Some(m) && Find(done, SlugOf(m)).None?
    ensures NormalizeAll(Written(done + [m]).models, p) == Some(done + [m])
  {
    WrittenAppend(done, m);
    NormalizeAppend(Written(done).models, m, p);
  }

  lemma {:induction false} AllIdempotent(models: seq<Option<Model>>, p: Policy)
    requires Bundled(p) && NormalizeAll(models, p).Some?
    ensures NormalizeAll(Written(NormalizeAll(models, p).value).models, p) == NormalizeAll(models, p)
    decreases |models|
  {
    if models != [] {
      var front, source := models[..|models| - 1], models[|models| - 1].value;
      AllIdempotent(front, p);
      ModelIdempotent(source, p);
      KeepsSlug(source, p);
      AppendNormal(NormalizeAll(front, p).value, NormalizeModel(source, p).value, p);
    }
  }

  // What was accepted once is accepted unchanged.
  lemma NormalizeIdempotent(data: Catalog, p: Policy)
    requires Bundled(p) && Normalize(data, p).Some?
    ensures Normalize(Written(Normalize(data, p).value), p) == Normalize(data, p)
  {
    AllIdempotent(data.models, p);
  }

  // ----- the checks as they are shipped -----

  lemma RequiredAreCapabilities(f: Field)
    requires f in REQUIRED
    ensures Capability(f)
  {
  }

  // All that is asked of the bundled catalog is that it passes its own checks.
  lemma ShippedBundled(p: Policy, templates: seq<Model>, instructions: string, client: Version, host: Host)
    requires p == Shipped(templates, instructions, client, host)
    ensures Bundled(p) <==> Normalize(Written(templates), p).Some?
  {
    forall f | f in p.required ensures Capability(f) {
      RequiredAreCapabilities(f);
    }
  }

  // With the repository's own field checks: what was accepted once is accepted
  // unchanged, and everything in it passes those checks.
  lemma ShippedIdempotent(
    p: Policy, templates: seq<Model>, instructions: string, client: Version, host: Host, data: Catalog)
    requires p == Shipped(templates, instructions, client, host) && Normalize(Written(templates), p).Some?
    requires Normalize(data, p).Some?
    ensures Normalize(Written(Normalize(data, p).value), p) == Normalize(data, p)
    ensures forall i, f :: 0 <= i < |data.models| && f in Normalize(data, p).value[i] && Capability(f) ==>
      ValidField(f, Normalize(data, p).value[i][f], host)
  {
    ShippedBundled(p, templates, instructions, client, host);
    NormalizeIdempotent(data, p);
    forall i, f | 0 <= i < |data.models| && f in Normalize(data, p).value[i] && Capability(f)
      ensures ValidField(f, Normalize(data, p).value[i][f], host)
    {
      ResultWellFormed(data, p, i);
      assert p.valid(f, Normalize(data, p).value[i][f]);
    }
  }

  // Every model of an accepted catalog is well formed itself.
  lemma ResultWellFormed(data: Catalog, p: Policy, i: nat)
    requires Bundled(p) && Normalize(data, p).Some? && i < |data.models|
    ensures WellFormed(Normalize(data, p).value[i], p)
  {
    EachNormal(data.models, p, i);
    var source := data.models[i].value;
    var slug := SlugOf(source);
    TemplateIsSound(p, slug);
  }
}
