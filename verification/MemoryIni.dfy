/**
 The table-building part of parseMemoryIni (memory_config.cpp): the configuration file is
 a stream of section headers and assignments, and the tables grow entry by entry.
 Character-level scanning is not part of this model: names are opaque strings, clipped to
 16 characters where the tables store them, and a value arrives with its strict 8-bit reading.
 */
module MemoryIni {
  import opened Words
  import opened MemoryConfig

  datatype Entry =
    | SystemSection
    | ModelSection(name: Name)
    | RegionSection(model: Name, layout: Name, region: Name)
    | ContextSection(model: Name, id: Option<u8>)
    | OtherSection
    | Assign(key: Name, text: Name, number: Option<u8>)

  /** The section that assignments apply to; InRegion holds the current layout and region. */
  datatype Section =
    | NoSection
    | InSystem
    | InModel(name: Name)
    | InRegion(l: nat, r: nat)
    | InContext(model: Name, id: u8)

  function Clip(s: Name): (r: Name)
    ensures r <= s && |r| == if |s| <= 16 then |s| else 16
  {
    if |s| <= MAX_NAME then s else s[..MAX_NAME]
  }

  const EMPTY_CONFIG: Config := Config(0, "", 0, [], [], [])

  ghost predicate DistinctModels(ms: seq<Model>) {
    forall i, j | 0 <= i < j < |ms| :: ms[i].name != ms[j].name
  }

  ghost predicate DistinctLayouts(ls: seq<Layout>) {
    forall i, j | 0 <= i < j < |ls| :: ls[i].model != ls[j].model || ls[i].name != ls[j].name
  }

  ghost predicate DistinctRegions(rs: seq<Region>) {
    forall i, j | 0 <= i < j < |rs| :: rs[i].name != rs[j].name
  }

  /** The table limits and the uniqueness rules that the page allocator relies on. */
  ghost predicate WellFormed(cfg: Config) {
    && |cfg.models| <= MAX_MODELS
    && |cfg.layouts| <= MAX_LAYOUTS
    && |cfg.bindings| <= MAX_CONTEXTS
    && DistinctModels(cfg.models)
    && DistinctLayouts(cfg.layouts)
    && (forall l | 0 <= l < |cfg.layouts| ::
          |cfg.layouts[l].regions| <= MAX_REGIONS && DistinctRegions(cfg.layouts[l].regions))
    && (forall b | 0 <= b < |cfg.bindings| :: cfg.bindings[b].context < MAX_CONTEXTS)
  }

  /** The region table of a named layout, empty when the layout does not exist yet. */
  ghost function RegionsOf(cfg: Config, model: Name, layout: Name): seq<Region> {
    var l := LayoutIndex(cfg.layouts, model, layout);
    if l == |cfg.layouts| then [] else cfg.layouts[l].regions
  }

  datatype Progress = Progress(config: Config, section: Section)

  /** A new region at the end of the named layout, which is created if need be; nothing else changes. */
  ghost predicate RegionOpened(p: Progress, q: Progress, model: Name, layout: Name, region: Name) {
    && RegionsOf(q.config, model, layout) ==
       RegionsOf(p.config, model, layout) + [Region(region, 0, 0, false, false, false)]
    && (forall m, n | m != model || n != layout :: RegionsOf(q.config, m, n) == RegionsOf(p.config, m, n))
    && q.config.(layouts := []) == p.config.(layouts := [])
    && q.section == InRegion(LayoutIndex(q.config.layouts, model, layout), |RegionsOf(p.config, model, layout)|)
  }

  /** The attribute of the current section that an accepted assignment sets, and its value. */
  ghost predicate Assigned(p: Progress, q: Progress, key: Name, text: Name, number: Option<u8>) {
    && q.section == p.section && SameNames(p.config, q.config)
    && match p.section
       case NoSection => false
       case InSystem =>
         || (key == "config_version" && number.Some? && q.config == p.config.(version := number.value))
         || (key == "active_model" && q.config == p.config.(activeModel := Clip(text)))
         || (key == "boot_context" && number.Some? && number.value < MAX_CONTEXTS
             && q.config == p.config.(bootContext := number.value))
       case InModel(name) =>
         var m := ModelIndex(p.config.models, name);
         && key == "contexts" && number.Some? && m < |p.config.models|
         && q.config == p.config.(models := p.config.models[m := p.config.models[m].(contexts := number.value)])
       case InRegion(l, r) =>
         && q.config == p.config.(layouts := q.config.layouts)
         && l < |p.config.layouts| && r < |p.config.layouts[l].regions|
         && RegionChange(p.config.layouts[l].regions[r], q.config.layouts[l].regions[r], key, text, number)
         && OthersSame(p.config.layouts, q.config.layouts, l, r)
       case InContext(model, id) =>
         var b := BindingIndex(p.config.bindings, model, id);
         && key == "layout" && b < |p.config.bindings|
         && q.config == p.config.(bindings := p.config.bindings[b := p.config.bindings[b].(layout := Clip(text))])
  }

  /** All regions but one are the same. */
  ghost predicate OthersSame(ls: seq<Layout>, ls': seq<Layout>, l: nat, r: nat)
    requires |ls| == |ls'| && l < |ls| && |ls[l].regions| == |ls'[l].regions|
  {
    && (forall i | 0 <= i < |ls| && i != l :: ls'[i] == ls[i])
    && (forall j | 0 <= j < |ls[l].regions| && j != r :: ls'[l].regions[j] == ls[l].regions[j])
  }

  /** Which lines are accepted: table limits, duplicates, unknown sections and keys, and bad values decide. */
  ghost predicate Accepts(p: Progress, e: Entry) {
    match e
    case SystemSection => true
    case OtherSection => false
    case ModelSection(raw) =>
      (forall m | m in p.config.models :: m.name != Clip(raw)) && |p.config.models| < MAX_MODELS
    case RegionSection(model, layout, region) => AcceptsRegion(p.config, Clip(model), Clip(layout), Clip(region))
    case ContextSection(model, id) =>
      && id.Some? && id.value < MAX_CONTEXTS && |p.config.bindings| < MAX_CONTEXTS
      && forall b | b in p.config.bindings :: b.model != model || b.context != id.value
    case Assign(key, text, number) =>
      match p.section
      case NoSection => false
      case InSystem => AcceptsSystem(key, number)
      case InModel(name) => key == "contexts" && number.Some? && exists m :: m in p.config.models && m.name == name
      case InRegion(_, _) => AcceptsSetting(key, text, number)
      case InContext(model, id) =>
        key == "layout" && exists b :: b in p.config.bindings && b.model == model && b.context == id
  }

  ghost predicate AcceptsRegion(cfg: Config, model: Name, layout: Name, region: Name) {
    && HasRoomFor(cfg, model, layout)
    && |RegionsOf(cfg, model, layout)| < MAX_REGIONS
    && forall r | r in RegionsOf(cfg, model, layout) :: r.name != region
  }

  /** The layout exists or can be created. */
  ghost predicate HasRoomFor(cfg: Config, model: Name, layout: Name) {
    |cfg.layouts| < MAX_LAYOUTS || exists l :: l in cfg.layouts && l.model == model && l.name == layout
  }

  predicate AcceptsSystem(key: Name, number: Option<u8>) {
    || key == "active_model"
    || (key == "config_version" && number.Some?)
    || (key == "boot_context" && number.Some? && number.value < MAX_CONTEXTS)
  }

  predicate AcceptsSetting(key: Name, text: Name, number: Option<u8>) {
    || (key in {"start", "pages"} && number.Some?)
    || (key in {"shared", "trap_write"} && text in {"true", "false"})
    || (key == "type" && text in {"io", "normal"})
  }

  /** Which error an unacceptable line is reported with. */
  ghost predicate Fault(p: Progress, e: Entry, err: IniError) {
    match e
    case SystemSection => false
    case OtherSection => err == UnknownSection
    case ModelSection(raw) =>
      err == if exists m :: m in p.config.models && m.name == Clip(raw) then DuplicateModel else InvalidValue
    case RegionSection(model, layout, region) =>
      err == if exists r :: r in RegionsOf(p.config, Clip(model), Clip(layout)) && r.name == Clip(region)
             then DuplicateRegion else InvalidValue
    case ContextSection(model, id) =>
      err == if id.None? || id.value >= 16 then InvalidContext
             else if exists b :: b in p.config.bindings && b.model == model && b.context == id.value
             then DuplicateContext else InvalidValue
    case Assign(key, text, number) =>
      match p.section
      case NoSection => err == UnknownSection
      case InSystem =>
        err == if key == "config_version" then InvalidValue
               else if key == "boot_context" then InvalidContext else UnknownKey
      case InModel(name) =>
        err == if !exists m :: m in p.config.models && m.name == name then ModelNotFound
               else if key == "contexts" then InvalidValue else UnknownKey
      case InRegion(_, _) =>
        err == if key in {"start", "pages", "shared", "trap_write", "type"} then InvalidValue else UnknownKey
      case InContext(model, id) =>
        err == if exists b :: b in p.config.bindings && b.model == model && b.context == id
               then UnknownKey else InvalidContext
  }

  /** What a line of the file does, if it is accepted. */
  ghost predicate Effect(p: Progress, e: Entry, q: Progress) {
    && Accepts(p, e)
    && match e
       case SystemSection => q == p.(section := InSystem)
       case OtherSection => false
       case ModelSection(raw) =>
         q == Progress(p.config.(models := p.config.models + [Model(Clip(raw), 0)]), InModel(Clip(raw)))
       case RegionSection(model, layout, region) => RegionOpened(p, q, Clip(model), Clip(layout), Clip(region))
       case ContextSection(model, id) =>
         q == Progress(p.config.(bindings := p.config.bindings + [Binding(Clip(model), id.value, "")]),
                       InContext(model, id.value))
       case Assign(key, text, number) => Assigned(p, q, key, text, number)
  }

  class Parser {
    var config: Config
    var section: Section

    ghost predicate Valid()
      reads this
    {
      && WellFormed(config)
      && (section.InRegion? ==>
            section.l < |config.layouts| && section.r < |config.layouts[section.l].regions|)
    }

    ghost function State(): Progress
      reads this
    {
      Progress(config, section)
    }

    constructor ()
      ensures Valid() && config == EMPTY_CONFIG && section == NoSection
    {
      config, section := EMPTY_CONFIG, NoSection;
    }

    method OpenModel(raw: Name) returns (err: IniError)
      requires Valid()
      modifies this
      ensures Valid()
      ensures err == IniOk <==> old(Accepts(State(), ModelSection(raw)))
      ensures err != IniOk ==> Fault(old(State()), ModelSection(raw), err)
      ensures config == if err != IniOk then old(config)
                        else old(config).(models := old(config.models) + [Model(Clip(raw), 0)])
      ensures err == IniOk ==> section == InModel(Clip(raw))
    {
      section := NoSection;
      var name := Clip(raw);
      var m := FindModel(config.models, name);
      if m < |config.models| {
        return DuplicateModel;
      }
      if |config.models| >= MAX_MODELS {
        return InvalidValue;
      }
      config := config.(models := config.models + [Model(name, 0)]);
      section := InModel(name);
      return IniOk;
    }

    /** The named layout, created empty if it does not exist and the table has room. */
    method UseLayout(model: Name, layout: Name) returns (l: nat, ok: bool)
      requires WellFormed(config)
      modifies this`config
      ensures WellFormed(config) && config == old(config).(layouts := config.layouts)
      ensures ok <==> old(HasRoomFor(config, model, layout))
      ensures !ok || old(RegionsOf(config, model, layout)) != [] ==> config == old(config)
      ensures !ok ==> old(RegionsOf(config, model, layout)) == []
      ensures ok ==>
                && l == LayoutIndex(config.layouts, model, layout) < |config.layouts|
                && config.layouts[l].regions == old(RegionsOf(config, model, layout))
                && config.layouts[l].model == model && config.layouts[l].name == layout
                && forall m, n :: RegionsOf(config, m, n) == old(RegionsOf(config, m, n))
    {
      hide WellFormed;
      ok := true;
      l := FindLayout(config.layouts, model, layout);
      if l == |config.layouts| {
        assert forall k | k in config.layouts :: k.model != model || k.name != layout;
        if |config.layouts| >= MAX_LAYOUTS {
          return l, false;
        }
        LayoutAdded(config, model, layout);
        config := WithLayout(config, model, layout);
      } else {
        assert config.layouts[l] in config.layouts;
      }
    }

    method OpenRegion(model: Name, layout: Name, region: Name) returns (err: IniError)
      requires Valid()
      modifies this
      ensures Valid()
      ensures err == IniOk <==> old(Accepts(State(), RegionSection(model, layout, region)))
      ensures err != IniOk ==> Fault(old(State()), RegionSection(model, layout, region), err)
      ensures err != IniOk ==> config == old(config)
      ensures err == IniOk ==> RegionOpened(old(State()), State(), Clip(model), Clip(layout), Clip(region))
      ensures err == DuplicateRegion <==>
                exists r :: r in old(RegionsOf(config, Clip(model), Clip(layout))) && r.name == Clip(region)
    {
      hide WellFormed, RegionsOf, LayoutIndex, HasRoomFor;
      section := NoSection;
      var modelName, layoutName, regionName := Clip(model), Clip(layout), Clip(region);
      ghost var before := RegionsOf(config, modelName, layoutName);
      var l, ok := UseLayout(modelName, layoutName);
      if !ok {
        return InvalidValue;
      }
      var duplicate := FindRegion(config.layouts[l].regions, regionName);
      if duplicate {
        return DuplicateRegion;
      }
      if |config.layouts[l].regions| >= MAX_REGIONS {
        return InvalidValue;
      }
      var added := Region(regionName, 0, 0, false, false, false);
      RegionAdded(config, l, added);
      IndexKept(config, l, added, modelName, layoutName);
      section := InRegion(l, |config.layouts[l].regions|);
      config := WithRegion(config, l, added);
      return IniOk;
    }

    method OpenContext(model: Name, id: Option<u8>) returns (err: IniError)
      requires Valid()
      modifies this
      ensures Valid()
      ensures err == IniOk <==> old(Accepts(State(), ContextSection(model, id)))
      ensures err != IniOk ==> Fault(old(State()), ContextSection(model, id), err)
      ensures config == if err != IniOk then old(config)
                        else old(config).(bindings := old(config.bindings) + [Binding(Clip(model), id.value, "")])
      ensures err == IniOk ==> section == InContext(model, id.value)
    {
      section := NoSection;
      if id.None? || id.value >= MAX_CONTEXTS {
        return InvalidContext;
      }
      var b := FindBinding(config.bindings, model, id.value);
      if b < |config.bindings| {
        return DuplicateContext;
      }
      if |config.bindings| >= MAX_CONTEXTS {
        return InvalidValue;
      }
      config := config.(bindings := config.bindings + [Binding(Clip(model), id.value, "")]);
      section := InContext(model, id.value);
      return IniOk;
    }

    /** An assignment changes values only: no table gains or loses an entry or a name. */
    method SetKey(key: Name, text: Name, number: Option<u8>) returns (err: IniError)
      requires Valid()
      modifies this
      ensures Valid() && section == old(section)
      ensures err == IniOk <==> old(Accepts(State(), Assign(key, text, number)))
      ensures err != IniOk ==> Fault(old(State()), Assign(key, text, number), err)
      ensures err != IniOk ==> config == old(config)
      ensures err == IniOk ==> Assigned(old(State()), State(), key, text, number)
    {
      hide WellFormed, RegionChange, OthersSame, AcceptsSystem, AcceptsSetting, ModelIndex, BindingIndex;
      match section
      case NoSection =>
        return UnknownSection;
      case InSystem =>
        err := SetSystem(key, text, number);
      case InModel(name) =>
        err := SetModelKey(name, key, number);
      case InRegion(l, r) =>
        err := SetRegionKey(key, text, number);
      case InContext(model, id) =>
        err := SetContextKey(model, id, key, text);
    }

    method SetModelKey(name: Name, key: Name, number: Option<u8>) returns (err: IniError)
      requires Valid()
      modifies this`config
      ensures Valid() && SameNames(old(config), config)
      ensures err == IniOk <==>
                key == "contexts" && number.Some? && exists m :: m in old(config.models) && m.name == name
      ensures err != IniOk ==>
                err == if !exists m :: m in old(config.models) && m.name == name then ModelNotFound
                       else if key == "contexts" then InvalidValue else UnknownKey
      ensures var ms := old(config.models);
              var m := ModelIndex(ms, name);
              config == if err != IniOk then old(config)
                        else old(config).(models := ms[m := ms[m].(contexts := number.value)])
    {
      var m := FindModel(config.models, name);
      if m == |config.models| {
        return ModelNotFound;
      }
      assert config.models[m] in config.models;
      if key != "contexts" {
        return UnknownKey;
      }
      if number.None? {
        return InvalidValue;
      }
      config := config.(models := config.models[m := config.models[m].(contexts := number.value)]);
      return IniOk;
    }

    method SetContextKey(model: Name, id: u8, key: Name, text: Name) returns (err: IniError)
      requires Valid()
      modifies this`config
      ensures Valid() && SameNames(old(config), config)
      ensures err == IniOk <==>
                key == "layout" && exists b :: b in old(config.bindings) && b.model == model && b.context == id
      ensures err != IniOk ==>
                err == if exists b :: b in old(config.bindings) && b.model == model && b.context == id
                       then UnknownKey else InvalidContext
      ensures var bs := old(config.bindings);
              var b := BindingIndex(bs, model, id);
              config == if err != IniOk then old(config)
                        else old(config).(bindings := bs[b := bs[b].(layout := Clip(text))])
    {
      var b := FindBinding(config.bindings, model, id);
      if b == |config.bindings| {
        return InvalidContext;
      }
      assert config.bindings[b] in config.bindings;
      if key != "layout" {
        return UnknownKey;
      }
      config := config.(bindings := config.bindings[b := config.bindings[b].(layout := Clip(text))]);
      return IniOk;
    }

    method SetRegionKey(key: Name, text: Name, number: Option<u8>) returns (err: IniError)
      requires Valid() && section.InRegion?
      modifies this`config
      ensures Valid() && SameNames(old(config), config) && (err == IniOk <==> AcceptsSetting(key, text, number))
      ensures err != IniOk ==>
                err == if key in {"start", "pages", "shared", "trap_write", "type"} then InvalidValue else UnknownKey
      ensures config == if err != IniOk then old(config) else old(config).(layouts := config.layouts)
      ensures err == IniOk ==>
                && RegionChange(old(config.layouts[section.l].regions[section.r]),
                                config.layouts[section.l].regions[section.r], key, text, number)
                && OthersSame(old(config.layouts), config.layouts, section.l, section.r)
    {
      var l, r := section.l, section.r;
      var changed := SetRegion(config.layouts[l].regions[r], key, text, number);
      if changed.None? {
        return if key in {"start", "pages", "shared", "trap_write", "type"} then InvalidValue else UnknownKey;
      }
      var grown := config.layouts[l].(regions := config.layouts[l].regions[r := changed.value]);
      config := config.(layouts := config.layouts[l := grown]);
      return IniOk;
    }

    method SetSystem(key: Name, text: Name, number: Option<u8>) returns (err: IniError)
      requires Valid() && section.InSystem?
      modifies this
      ensures Valid() && section == old(section)
      ensures config == old(config).(version := config.version, activeModel := config.activeModel,
                                     bootContext := config.bootContext)
      ensures err == IniOk <==> AcceptsSystem(key, number)
      ensures err != IniOk ==>
                err == if key == "config_version" then InvalidValue
                       else if key == "boot_context" then InvalidContext else UnknownKey
      ensures err != IniOk ==> config == old(config)
      ensures err == IniOk ==>
                || (key == "config_version" && number.Some? && config == old(config).(version := number.value))
                || (key == "active_model" && config == old(config).(activeModel := Clip(text)))
                || (key == "boot_context" && number.Some? && number.value < MAX_CONTEXTS
                    && config == old(config).(bootContext := number.value))
    {
      if key == "config_version" {
        if number.None? {
          return InvalidValue;
        }
        config := config.(version := number.value);
      } else if key == "active_model" {
        config := config.(activeModel := Clip(text));
      } else if key == "boot_context" {
        if number.None? || number.value >= MAX_CONTEXTS {
          return InvalidContext;
        }
        config := config.(bootContext := number.value);
      } else {
        return UnknownKey;
      }
      return IniOk;
    }

    method Apply(e: Entry) returns (err: IniError)
      requires Valid()
      modifies this
      ensures Valid() && (err != IniOk ==> config == old(config))
      ensures err == IniOk <==> old(Accepts(State(), e))
      ensures err != IniOk ==> Fault(old(State()), e, err)
      ensures err == IniOk ==> Effect(old(State()), e, State())
    {
      match e
      case SystemSection =>
        section := InSystem;
        return IniOk;
      case ModelSection(name) =>
        err := OpenModel(name);
      case RegionSection(model, layout, region) =>
        err := OpenRegion(model, layout, region);
      case ContextSection(model, id) =>
        err := OpenContext(model, id);
      case OtherSection =>
        section := NoSection;
        return UnknownSection;
      case Assign(key, text, number) =>
        err := SetKey(key, text, number);
    }

    /**
     Parses a whole file: every line up to the first unacceptable one takes effect, and a file without such
     lines gets the validator's verdict. The tables are well-formed whatever happens.
     */
    method Parse(entries: seq<Entry>) returns (err: IniError, ghost trace: seq<Progress>)
      modifies this
      ensures Valid()
      ensures 1 <= |trace| <= |entries| + 1 && trace[0] == Progress(EMPTY_CONFIG, NoSection)
      ensures forall i | 0 <= i < |trace| - 1 :: Effect(trace[i], entries[i], trace[i + 1])
      ensures config == trace[|trace| - 1].config
      ensures if |trace| == |entries| + 1 then err == Verdict(config)
              else
                && err != IniOk && !Accepts(trace[|trace| - 1], entries[|trace| - 1])
                && Fault(trace[|trace| - 1], entries[|trace| - 1], err)
      ensures err == IniOk ==> Accepted(config)
    {
      hide Effect, Accepts, Fault, WellFormed, Verdict;
      config, section := EMPTY_CONFIG, NoSection;
      EmptyIsWellFormed();
      trace := [State()];
      var i := 0;
      while i < |entries|
        invariant 0 <= i <= |entries| && |trace| == i + 1
        invariant Valid() && trace[0] == Progress(EMPTY_CONFIG, NoSection) && trace[i] == State()
        invariant forall j | 0 <= j < i :: Effect(trace[j], entries[j], trace[j + 1])
      {
        err := Apply(entries[i]);
        if err != IniOk {
          return;
        }
        trace := trace + [State()];
        i := i + 1;
      }
      err := ValidateConfig(config);
    }
  }

  lemma EmptyIsWellFormed()
    ensures WellFormed(EMPTY_CONFIG)
  {
  }

  /** The new value of a region after an assignment, or nothing when key or value is refused. */
  function SetRegion(r: Region, key: Name, text: Name, number: Option<u8>): (changed: Option<Region>)
    ensures changed.Some? <==> AcceptsSetting(key, text, number)
    ensures changed.Some? ==> RegionChange(r, changed.value, key, text, number)
  {
    match key
    case "start" => if number.Some? then Some(r.(start := number.value)) else None
    case "pages" => if number.Some? then Some(r.(pages := number.value)) else None
    case "shared" => if text == "true" || text == "false" then Some(r.(shared := text == "true")) else None
    case "trap_write" => if text == "true" || text == "false" then Some(r.(trapWrite := text == "true")) else None
    case "type" => if text == "io" || text == "normal" then Some(r.(io := text == "io")) else None
    case _ => None
  }

  /** Exactly the assigned attribute takes the assigned value; all others keep theirs. */
  ghost predicate RegionChange(r: Region, r': Region, key: Name, text: Name, number: Option<u8>) {
    && r'.name == r.name
    && r'.start == (if key == "start" && number.Some? then number.value else r.start)
    && r'.pages == (if key == "pages" && number.Some? then number.value else r.pages)
    && r'.shared == (if key == "shared" then text == "true" else r.shared)
    && r'.trapWrite == (if key == "trap_write" then text == "true" else r.trapWrite)
    && r'.io == (if key == "type" then text == "io" else r.io)
  }

  ghost predicate SameNames(a: Config, b: Config) {
    && |a.models| == |b.models| && |a.layouts| == |b.layouts| && |a.bindings| == |b.bindings|
    && (forall i | 0 <= i < |a.models| :: a.models[i].name == b.models[i].name)
    && (forall i | 0 <= i < |a.bindings| ::
          a.bindings[i].model == b.bindings[i].model && a.bindings[i].context == b.bindings[i].context)
    && (forall i | 0 <= i < |a.layouts| ::
          && a.layouts[i].model == b.layouts[i].model && a.layouts[i].name == b.layouts[i].name
          && |a.layouts[i].regions| == |b.layouts[i].regions|
          && (forall r | 0 <= r < |a.layouts[i].regions| ::
                a.layouts[i].regions[r].name == b.layouts[i].regions[r].name))
  }

  function WithLayout(cfg: Config, model: Name, name: Name): Config {
    cfg.(layouts := cfg.layouts + [Layout(model, name, [])])
  }

  function WithRegion(cfg: Config, l: nat, added: Region): Config
    requires l < |cfg.layouts|
  {
    var grown := cfg.layouts[l].(regions := cfg.layouts[l].regions + [added]);
    cfg.(layouts := cfg.layouts[l := grown])
  }

  lemma LayoutAdded(cfg: Config, model: Name, name: Name)
    requires WellFormed(cfg) && |cfg.layouts| < MAX_LAYOUTS
    requires LayoutIndex(cfg.layouts, model, name) == |cfg.layouts|
    ensures var cfg' := WithLayout(cfg, model, name);
            && WellFormed(cfg')
            && LayoutIndex(cfg'.layouts, model, name) == |cfg.layouts|
            && forall m, n :: RegionsOf(cfg', m, n) == RegionsOf(cfg, m, n)
  {
    var cfg' := WithLayout(cfg, model, name);
    var k := |cfg.layouts|;
    assert cfg'.layouts[k] == Layout(model, name, []);
    assert forall i | 0 <= i < k :: cfg'.layouts[i] == cfg.layouts[i];
  }

  lemma IndexKept(cfg: Config, l: nat, added: Region, model: Name, layout: Name)
    requires l < |cfg.layouts|
    ensures LayoutIndex(WithRegion(cfg, l, added).layouts, model, layout) == LayoutIndex(cfg.layouts, model, layout)
  {
    var cfg' := WithRegion(cfg, l, added);
    assert forall i | 0 <= i < |cfg.layouts| ::
        cfg'.layouts[i].model == cfg.layouts[i].model && cfg'.layouts[i].name == cfg.layouts[i].name;
  }

  lemma RegionAdded(cfg: Config, l: nat, added: Region)
    requires WellFormed(cfg) && l < |cfg.layouts| && |cfg.layouts[l].regions| < MAX_REGIONS
    requires forall r | 0 <= r < |cfg.layouts[l].regions| :: cfg.layouts[l].regions[r].name != added.name
    ensures var cfg' := WithRegion(cfg, l, added);
            && WellFormed(cfg')
            && forall m, n :: RegionsOf(cfg', m, n) ==
                 if m == cfg.layouts[l].model && n == cfg.layouts[l].name then cfg.layouts[l].regions + [added]
                 else RegionsOf(cfg, m, n)
  {
    var cfg' := WithRegion(cfg, l, added);
    assert forall i | 0 <= i < |cfg.layouts| ::
        cfg'.layouts[i].model == cfg.layouts[i].model && cfg'.layouts[i].name == cfg.layouts[i].name;
    forall m, n
      ensures LayoutIndex(cfg'.layouts, m, n) == LayoutIndex(cfg.layouts, m, n)
    {
    }
    assert forall i | 0 <= i < |cfg.layouts| && i != l :: cfg'.layouts[i] == cfg.layouts[i];
  }
}
