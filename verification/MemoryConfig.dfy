/**
 The memory configuration (memory_config.cpp): models, layouts made of regions, and
 context bindings; the table-building part of the INI parser; and the validator that
 accepts a configuration.
 */
module MemoryConfig {
  import opened Words
  import opened MmuTable

  const MAX_NAME: nat := 16
  const MAX_MODELS: nat := 4
  const MAX_LAYOUTS: nat := 8
  const MAX_REGIONS: nat := 16
  const MAX_CONTEXTS: nat := 16

  type Name = string

  datatype Region = Region(name: Name, start: u8, pages: u8, shared: bool, io: bool, trapWrite: bool)
  datatype Layout = Layout(model: Name, name: Name, regions: seq<Region>)
  datatype Model = Model(name: Name, contexts: u8)
  datatype Binding = Binding(model: Name, context: u8, layout: Name)
  datatype Config = Config(version: u8, activeModel: Name, bootContext: u8,
                           models: seq<Model>, layouts: seq<Layout>, bindings: seq<Binding>)

  datatype IniError =
    | IniOk
    | UnknownSection
    | UnknownKey
    | DuplicateModel
    | DuplicateRegion
    | DuplicateContext
    | InvalidContext
    | InvalidValue
    | InvalidRange
    | ModelNotFound
    | LayoutNotFound
    | LayoutIncomplete
    | OverlappingRegions

  // ---------------------------------------------------------------------------
  // Table searches: the first matching entry, or the table length
  // ---------------------------------------------------------------------------

  ghost function ModelIndex(ms: seq<Model>, name: Name): (i: nat)
    ensures i <= |ms|
    ensures forall j | 0 <= j < i :: ms[j].name != name
    ensures i < |ms| ==> ms[i].name == name
  {
    if ms == [] || ms[0].name == name then 0 else 1 + ModelIndex(ms[1..], name)
  }

  ghost function LayoutIndex(ls: seq<Layout>, model: Name, name: Name): (i: nat)
    ensures i <= |ls|
    ensures forall j | 0 <= j < i :: !(ls[j].model == model && ls[j].name == name)
    ensures i < |ls| ==> ls[i].model == model && ls[i].name == name
  {
    if ls == [] || (ls[0].model == model && ls[0].name == name) then 0
    else 1 + LayoutIndex(ls[1..], model, name)
  }

  ghost function BindingIndex(bs: seq<Binding>, model: Name, context: u8): (i: nat)
    ensures i <= |bs|
    ensures forall j | 0 <= j < i :: !(bs[j].model == model && bs[j].context == context)
    ensures i < |bs| ==> bs[i].model == model && bs[i].context == context
  {
    if bs == [] || (bs[0].model == model && bs[0].context == context) then 0
    else 1 + BindingIndex(bs[1..], model, context)
  }

  method FindModel(ms: seq<Model>, name: Name) returns (i: nat)
    ensures i == ModelIndex(ms, name)
  {
    i := 0;
    while i < |ms|
      invariant i <= |ms|
      invariant forall j | 0 <= j < i :: ms[j].name != name
    {
      if ms[i].name == name {
        return;
      }
      i := i + 1;
    }
  }

  method FindLayout(ls: seq<Layout>, model: Name, name: Name) returns (i: nat)
    ensures i == LayoutIndex(ls, model, name)
  {
    i := 0;
    while i < |ls|
      invariant i <= |ls|
      invariant forall j | 0 <= j < i :: !(ls[j].model == model && ls[j].name == name)
    {
      if ls[i].model == model && ls[i].name == name {
        return;
      }
      i := i + 1;
    }
  }

  method FindBinding(bs: seq<Binding>, model: Name, context: u8) returns (i: nat)
    ensures i == BindingIndex(bs, model, context)
  {
    i := 0;
    while i < |bs|
      invariant i <= |bs|
      invariant forall j | 0 <= j < i :: !(bs[j].model == model && bs[j].context == context)
    {
      if bs[i].model == model && bs[i].context == context {
        return;
      }
      i := i + 1;
    }
  }

  method FindRegion(rs: seq<Region>, name: Name) returns (found: bool)
    ensures found <==> exists i | 0 <= i < |rs| :: rs[i].name == name
  {
    var i := 0;
    while i < |rs|
      invariant i <= |rs|
      invariant forall j | 0 <= j < i :: rs[j].name != name
    {
      if rs[i].name == name {
        return true;
      }
      i := i + 1;
    }
    return false;
  }

  /** The layout a context of a model is bound to, if there is one. */
  ghost function LayoutOf(cfg: Config, model: Name, context: u8): Option<Layout> {
    var b := BindingIndex(cfg.bindings, model, context);
    if b == |cfg.bindings| then None
    else
      var l := LayoutIndex(cfg.layouts, model, cfg.bindings[b].layout);
      if l == |cfg.layouts| then None else Some(cfg.layouts[l])
  }

  // ---------------------------------------------------------------------------
  // Layouts as partitions of the sixteen slots
  // ---------------------------------------------------------------------------

  predicate IsValidRegionRange(r: Region)
    ensures IsValidRegionRange(r) <==>
            (exists slot :: Covers(r, slot)) && (forall slot :: Covers(r, slot) ==> 0 <= slot < SLOTS)
  {
    assert Covers(r, r.start) <==> r.pages != 0;
    assert r.pages != 0 ==> Covers(r, r.start + r.pages - 1);
    r.pages != 0 && r.start < SLOTS && r.start + r.pages <= SLOTS
  }

  predicate Covers(r: Region, slot: int) {
    r.start <= slot < r.start + r.pages
  }

  ghost predicate InRange(rs: seq<Region>) {
    forall i | 0 <= i < |rs| :: IsValidRegionRange(rs[i])
  }

  /** No slot is covered by two regions. */
  ghost predicate Disjoint(rs: seq<Region>) {
    forall i, j, slot | 0 <= i < j < |rs| && Covers(rs[i], slot) :: !Covers(rs[j], slot)
  }

  ghost predicate Covered(rs: seq<Region>, slot: int) {
    exists i | 0 <= i < |rs| :: Covers(rs[i], slot)
  }

  ghost predicate Complete(rs: seq<Region>) {
    forall slot | 0 <= slot < SLOTS :: Covered(rs, slot)
  }

  ghost predicate CoveredOnce(rs: seq<Region>, slot: int) {
    exists i | 0 <= i < |rs| ::
      Covers(rs[i], slot) && forall j | 0 <= j < |rs| && Covers(rs[j], slot) :: j == i
  }

  /** Every slot lies in exactly one region, and regions are non-empty and cover nothing else. */
  ghost predicate IsPartition(rs: seq<Region>) {
    InRange(rs) && forall slot | 0 <= slot < SLOTS :: CoveredOnce(rs, slot)
  }

  method LayoutHasOverlaps(rs: seq<Region>) returns (overlaps: bool)
    requires InRange(rs)
    ensures overlaps <==> !Disjoint(rs)
  {
    var i := 0;
    while i < |rs|
      invariant 0 <= i <= |rs|
      invariant forall a, b, slot | 0 <= a < b < |rs| && a < i && Covers(rs[a], slot) :: !Covers(rs[b], slot)
    {
      var a0 := rs[i].start;
      var a1: u8 := (a0 + rs[i].pages) % 0x100;
      var j := i + 1;
      while j < |rs|
        invariant i < j <= |rs|
        invariant forall b, slot | i < b < j && Covers(rs[i], slot) :: !Covers(rs[b], slot)
      {
        var b0 := rs[j].start;
        var b1: u8 := (b0 + rs[j].pages) % 0x100;
        if a0 < b1 && b0 < a1 {
          var shared := if a0 < b0 then b0 else a0;
          assert Covers(rs[i], shared) && Covers(rs[j], shared);
          return true;
        }
        j := j + 1;
      }
      i := i + 1;
    }
    return false;
  }

  method LayoutIsComplete(rs: seq<Region>) returns (complete: bool)
    requires InRange(rs)
    ensures complete <==> Complete(rs)
  {
    var covered := new bool[SLOTS](_ => false);
    var i := 0;
    while i < |rs|
      invariant 0 <= i <= |rs|
      invariant forall s | 0 <= s < SLOTS :: covered[s] <==> Covered(rs[..i], s)
    {
      var p := 0;
      while p < rs[i].pages
        invariant 0 <= p <= rs[i].pages
        invariant forall s | 0 <= s < SLOTS ::
            covered[s] <==> (Covered(rs[..i], s) || rs[i].start <= s < rs[i].start + p)
      {
        covered[rs[i].start + p] := true;
        p := p + 1;
      }
      forall s | 0 <= s < SLOTS
        ensures covered[s] <==> Covered(rs[..i + 1], s)
      {
        CoveredSnoc(rs, i, s);
      }
      i := i + 1;
    }
    assert rs[..|rs|] == rs;
    i := 0;
    while i < SLOTS
      invariant 0 <= i <= SLOTS
      invariant forall s | 0 <= s < i :: covered[s]
    {
      if !covered[i] {
        assert !Covered(rs, i);
        return false;
      }
      i := i + 1;
    }
    return true;
  }

  lemma CoveredSnoc(rs: seq<Region>, i: nat, slot: int)
    requires i < |rs|
    ensures Covered(rs[..i + 1], slot) <==> Covered(rs[..i], slot) || Covers(rs[i], slot)
  {
    var longer := rs[..i + 1];
    if Covers(rs[i], slot) {
      assert Covers(longer[i], slot);
    }
    if Covered(rs[..i], slot) {
      var k :| 0 <= k < i && Covers(rs[..i][k], slot);
      assert Covers(longer[k], slot);
    }
    if Covered(longer, slot) && !Covers(rs[i], slot) {
      var k :| 0 <= k < i + 1 && Covers(longer[k], slot);
      assert Covers(rs[..i][k], slot);
    }
  }

  lemma DisjointCompleteIsPartition(rs: seq<Region>)
    requires InRange(rs)
    ensures IsPartition(rs) <==> Disjoint(rs) && Complete(rs)
  {
    if Disjoint(rs) && Complete(rs) {
      forall slot | 0 <= slot < SLOTS
        ensures CoveredOnce(rs, slot)
      {
        assert Covered(rs, slot);
        var i :| 0 <= i < |rs| && Covers(rs[i], slot);
        assert forall j | 0 <= j < |rs| && Covers(rs[j], slot) :: j == i;
      }
    }
    if IsPartition(rs) {
      forall slot | 0 <= slot < SLOTS
        ensures Covered(rs, slot)
      {
        assert CoveredOnce(rs, slot);
      }
      forall a, b, slot | 0 <= a < b < |rs| && Covers(rs[a], slot)
        ensures !Covers(rs[b], slot)
      {
        assert IsValidRegionRange(rs[a]);
        assert CoveredOnce(rs, slot);
      }
    }
  }

  // ---------------------------------------------------------------------------
  // "sum(pages) == 16" is the coverage test
  // ---------------------------------------------------------------------------

  ghost function PageSum(rs: seq<Region>): nat {
    if rs == [] then 0 else PageSum(rs[..|rs| - 1]) + rs[|rs| - 1].pages
  }

  ghost function CoveredSlots(rs: seq<Region>): set<int> {
    set slot | 0 <= slot < SLOTS && Covered(rs, slot)
  }

  ghost function Interval(lo: int, hi: int): (s: set<int>)
    requires lo <= hi
    ensures forall k :: k in s <==> lo <= k < hi
    ensures |s| == hi - lo
    decreases hi - lo
  {
    if lo == hi then {} else Interval(lo, hi - 1) + {hi - 1}
  }

  lemma {:induction false} DisjointRegionsAddUp(rs: seq<Region>)
    requires InRange(rs) && Disjoint(rs)
    ensures |CoveredSlots(rs)| == PageSum(rs)
  {
    if rs == [] {
      assert CoveredSlots(rs) == {};
    } else {
      var n := |rs| - 1;
      var init, last := rs[..n], rs[n];
      assert InRange(init) && Disjoint(init) by {
        assert forall i | 0 <= i < n :: init[i] == rs[i];
      }
      DisjointRegionsAddUp(init);
      LastRegionAddsItsPages(rs);
    }
  }

  lemma LastRegionAddsItsPages(rs: seq<Region>)
    requires rs != [] && InRange(rs) && Disjoint(rs)
    ensures |CoveredSlots(rs)| == |CoveredSlots(rs[..|rs| - 1])| + rs[|rs| - 1].pages
  {
    var n := |rs| - 1;
    var last := rs[n];
    assert IsValidRegionRange(last);
    var own := Interval(last.start, last.start + last.pages);
    forall slot: int
      ensures Covered(rs, slot) <==> Covered(rs[..n], slot) || slot in own
      ensures !(Covered(rs[..n], slot) && slot in own)
    {
      assert rs[..n + 1] == rs;
      CoveredSnoc(rs, n, slot);
      assert forall i | 0 <= i < n :: rs[..n][i] == rs[i];
    }
    assert CoveredSlots(rs) == CoveredSlots(rs[..n]) + own;
    assert CoveredSlots(rs[..n]) !! own;
  }

  /** A set of integers from an interval is as large as the interval exactly when it is all of it. */
  lemma FillsInterval(s: set<int>, lo: int, hi: int)
    requires lo <= hi && forall k | k in s :: lo <= k < hi
    ensures |s| == hi - lo <==> forall k | lo <= k < hi :: k in s
  {
    var all := Interval(lo, hi);
    if k :| lo <= k < hi && k !in s {
      SubsetSize(s, all - {k});
    } else {
      assert s == all;
    }
  }

  /** The rule written in memory.ini: for in-range, disjoint regions, complete iff the pages sum to 16. */
  lemma CompleteIffSixteenPages(rs: seq<Region>)
    requires InRange(rs) && Disjoint(rs)
    ensures Complete(rs) <==> PageSum(rs) == SLOTS
  {
    DisjointRegionsAddUp(rs);
    hide PageSum, InRange, Disjoint, Covered;
    FillsInterval(CoveredSlots(rs), 0, SLOTS);
    assert forall slot | 0 <= slot < SLOTS :: slot in CoveredSlots(rs) <==> Covered(rs, slot);
  }

  lemma {:induction false} SubsetSize<T>(a: set<T>, b: set<T>)
    requires a <= b
    ensures |a| <= |b|
  {
    assert b == a + (b - a);
  }

  // ---------------------------------------------------------------------------
  // validateConfig
  // ---------------------------------------------------------------------------

  ghost function LayoutVerdict(ms: seq<Model>, l: Layout): IniError {
    if ModelIndex(ms, l.model) == |ms| then ModelNotFound
    else if l.regions == [] then LayoutIncomplete
    else if !InRange(l.regions) then InvalidRange
    else if !Disjoint(l.regions) then OverlappingRegions
    else if !Complete(l.regions) then LayoutIncomplete
    else IniOk
  }

  ghost function LayoutsVerdict(cfg: Config, i: nat): IniError
    requires i <= |cfg.layouts|
    decreases |cfg.layouts| - i
  {
    if i == |cfg.layouts| then IniOk
    else if LayoutVerdict(cfg.models, cfg.layouts[i]) != IniOk then LayoutVerdict(cfg.models, cfg.layouts[i])
    else LayoutsVerdict(cfg, i + 1)
  }

  ghost function BindingsVerdict(cfg: Config, contexts: u8, i: nat): IniError
    requires i <= contexts
    decreases contexts - i
  {
    if i == contexts then IniOk
    else
      var b := BindingIndex(cfg.bindings, cfg.activeModel, i);
      if b == |cfg.bindings| then InvalidContext
      else if LayoutIndex(cfg.layouts, cfg.activeModel, cfg.bindings[b].layout) == |cfg.layouts| then LayoutNotFound
      else BindingsVerdict(cfg, contexts, i + 1)
  }

  predicate ModelSizeOk(m: Model) {
    0 < m.contexts <= MAX_CONTEXTS
  }

  /** What the validator reports: the first violated rule, in the order the rules are checked. */
  ghost function Verdict(cfg: Config): IniError {
    var m := ModelIndex(cfg.models, cfg.activeModel);
    if cfg.version == 0 || cfg.activeModel == "" then InvalidValue
    else if m == |cfg.models| then ModelNotFound
    else if cfg.bootContext >= cfg.models[m].contexts then InvalidContext
    else if exists i | 0 <= i < |cfg.models| :: !ModelSizeOk(cfg.models[i]) then InvalidValue
    else if LayoutsVerdict(cfg, 0) != IniOk then LayoutsVerdict(cfg, 0)
    else BindingsVerdict(cfg, cfg.models[m].contexts, 0)
  }

  method ValidateLayout(ms: seq<Model>, l: Layout) returns (err: IniError)
    ensures err == LayoutVerdict(ms, l)
  {
    var m := FindModel(ms, l.model);
    if m == |ms| {
      return ModelNotFound;
    }
    if |l.regions| == 0 {
      return LayoutIncomplete;
    }
    var j := 0;
    while j < |l.regions|
      invariant 0 <= j <= |l.regions|
      invariant forall k | 0 <= k < j :: IsValidRegionRange(l.regions[k])
    {
      if !IsValidRegionRange(l.regions[j]) {
        return InvalidRange;
      }
      j := j + 1;
    }
    var overlaps := LayoutHasOverlaps(l.regions);
    if overlaps {
      return OverlappingRegions;
    }
    var complete := LayoutIsComplete(l.regions);
    return if complete then IniOk else LayoutIncomplete;
  }

  method ValidateConfig(cfg: Config) returns (err: IniError)
    ensures err == Verdict(cfg)
  {
    hide LayoutVerdict, ModelIndex, BindingIndex, LayoutIndex;
    if cfg.version == 0 || |cfg.activeModel| == 0 {
      return InvalidValue;
    }
    var m := FindModel(cfg.models, cfg.activeModel);
    if m == |cfg.models| {
      return ModelNotFound;
    }
    var contexts := cfg.models[m].contexts;
    if cfg.bootContext >= contexts {
      return InvalidContext;
    }
    var i := 0;
    while i < |cfg.models|
      invariant 0 <= i <= |cfg.models|
      invariant forall k | 0 <= k < i :: ModelSizeOk(cfg.models[k])
    {
      if !ModelSizeOk(cfg.models[i]) {
        return InvalidValue;
      }
      i := i + 1;
    }
    i := 0;
    while i < |cfg.layouts|
      invariant 0 <= i <= |cfg.layouts|
      invariant LayoutsVerdict(cfg, i) == LayoutsVerdict(cfg, 0)
    {
      err := ValidateLayout(cfg.models, cfg.layouts[i]);
      if err != IniOk {
        return;
      }
      i := i + 1;
    }
    i := 0;
    while i < contexts
      invariant 0 <= i <= contexts
      invariant BindingsVerdict(cfg, contexts, i) == BindingsVerdict(cfg, contexts, 0)
    {
      var b := FindBinding(cfg.bindings, cfg.activeModel, i);
      if b == |cfg.bindings| {
        return InvalidContext;
      }
      var l := FindLayout(cfg.layouts, cfg.activeModel, cfg.bindings[b].layout);
      if l == |cfg.layouts| {
        return LayoutNotFound;
      }
      i := i + 1;
    }
    return IniOk;
  }

  ghost predicate Accepted(cfg: Config) {
    Verdict(cfg) == IniOk
  }

  /** The number of contexts of the active model (0 when the model is missing). */
  ghost function ActiveContexts(cfg: Config): nat {
    var m := ModelIndex(cfg.models, cfg.activeModel);
    if m == |cfg.models| then 0 else cfg.models[m].contexts
  }

  lemma {:induction false} LayoutsVerdictOk(cfg: Config, i: nat)
    requires i <= |cfg.layouts|
    ensures LayoutsVerdict(cfg, i) == IniOk <==>
            forall k | i <= k < |cfg.layouts| :: LayoutVerdict(cfg.models, cfg.layouts[k]) == IniOk
    decreases |cfg.layouts| - i
  {
    if i < |cfg.layouts| {
      LayoutsVerdictOk(cfg, i + 1);
    }
  }

  lemma {:induction false} BindingsVerdictOk(cfg: Config, contexts: u8, i: nat)
    requires i <= contexts
    ensures BindingsVerdict(cfg, contexts, i) == IniOk <==>
            forall c: u8 | i <= c < contexts :: LayoutOf(cfg, cfg.activeModel, c).Some?
    decreases contexts - i
  {
    if i < contexts {
      BindingsVerdictOk(cfg, contexts, i + 1);
      var c: u8 := i;
      assert LayoutOf(cfg, cfg.activeModel, c).Some? || BindingsVerdict(cfg, contexts, i) != IniOk;
    }
  }

  /**
   Acceptance, rule by rule: the header is consistent, every layout of every known model is a
   partition of the sixteen slots, and every context of the active model has a layout.
   */
  lemma AcceptedMeans(cfg: Config)
    ensures Accepted(cfg) <==>
            && cfg.version != 0 && cfg.activeModel != ""
            && cfg.bootContext < ActiveContexts(cfg)
            && (forall i | 0 <= i < |cfg.models| :: ModelSizeOk(cfg.models[i]))
            && (forall k | 0 <= k < |cfg.layouts| ::
                  && ModelIndex(cfg.models, cfg.layouts[k].model) < |cfg.models|
                  && IsPartition(cfg.layouts[k].regions))
            && (forall c: u8 | c < ActiveContexts(cfg) :: LayoutOf(cfg, cfg.activeModel, c).Some?)
  {
    LayoutsVerdictOk(cfg, 0);
    if ActiveContexts(cfg) > 0 {
      BindingsVerdictOk(cfg, ActiveContexts(cfg), 0);
    }
    forall k | 0 <= k < |cfg.layouts|
      ensures LayoutVerdict(cfg.models, cfg.layouts[k]) == IniOk <==>
              (ModelIndex(cfg.models, cfg.layouts[k].model) < |cfg.models| && IsPartition(cfg.layouts[k].regions))
    {
      var rs := cfg.layouts[k].regions;
      if InRange(rs) {
        DisjointCompleteIsPartition(rs);
      }
      if rs == [] {
        assert !Covered(rs, 0);
      }
    }
  }

  // ---------------------------------------------------------------------------
  // A refusal names a fault that is there
  // ---------------------------------------------------------------------------

  ghost predicate LayoutFault(cfg: Config, l: Layout, err: IniError) {
    match err
    case ModelNotFound => forall m | m in cfg.models :: m.name != l.model
    case InvalidRange => exists r :: r in l.regions && (r.pages == 0 || r.start + r.pages > 16)
    case OverlappingRegions =>
      exists i, j, slot :: 0 <= i < j < |l.regions| && Covers(l.regions[i], slot) && Covers(l.regions[j], slot)
    case LayoutIncomplete => exists slot :: 0 <= slot < 16 && Uncovered(l, slot)
    case _ => false
  }

  ghost predicate Uncovered(l: Layout, slot: int) {
    forall r | r in l.regions :: !Covers(r, slot)
  }

  lemma LayoutRefusal(cfg: Config, l: Layout)
    requires LayoutVerdict(cfg.models, l) != IniOk
    ensures LayoutFault(cfg, l, LayoutVerdict(cfg.models, l))
  {
    var err := LayoutVerdict(cfg.models, l);
    if err == InvalidRange {
      var i :| 0 <= i < |l.regions| && !IsValidRegionRange(l.regions[i]);
      assert l.regions[i] in l.regions;
    } else if err == LayoutIncomplete {
      if l.regions == [] {
        assert Uncovered(l, 0);
      } else {
        var slot :| 0 <= slot < SLOTS && !Covered(l.regions, slot);
        assert Uncovered(l, slot);
      }
    }
  }

  lemma {:induction false} LayoutsRefusal(cfg: Config, i: nat)
    requires i <= |cfg.layouts| && LayoutsVerdict(cfg, i) != IniOk
    ensures exists l :: l in cfg.layouts && LayoutFault(cfg, l, LayoutsVerdict(cfg, i))
    decreases |cfg.layouts| - i
  {
    if LayoutVerdict(cfg.models, cfg.layouts[i]) != IniOk {
      LayoutRefusal(cfg, cfg.layouts[i]);
      assert cfg.layouts[i] in cfg.layouts;
    } else {
      LayoutsRefusal(cfg, i + 1);
    }
  }

  lemma {:induction false} BindingsRefusal(cfg: Config, contexts: u8, i: nat)
    requires i <= contexts && BindingsVerdict(cfg, contexts, i) != IniOk
    ensures BindingsVerdict(cfg, contexts, i) == InvalidContext || BindingsVerdict(cfg, contexts, i) == LayoutNotFound
    ensures BindingsVerdict(cfg, contexts, i) == InvalidContext ==>
              exists c: u8 :: c < contexts && Unbound(cfg, c)
    ensures BindingsVerdict(cfg, contexts, i) == LayoutNotFound ==>
              exists b :: b in cfg.bindings && b.model == cfg.activeModel && b.context < contexts
                          && forall l | l in cfg.layouts :: l.model != cfg.activeModel || l.name != b.layout
    decreases contexts - i
  {
    var b := BindingIndex(cfg.bindings, cfg.activeModel, i);
    if b == |cfg.bindings| {
      assert Unbound(cfg, i);
    } else if LayoutIndex(cfg.layouts, cfg.activeModel, cfg.bindings[b].layout) == |cfg.layouts| {
      assert cfg.bindings[b] in cfg.bindings;
    } else {
      BindingsRefusal(cfg, contexts, i + 1);
    }
  }

  /** The active model has no binding for the context. */
  ghost predicate Unbound(cfg: Config, c: u8) {
    forall b | b in cfg.bindings :: b.model != cfg.activeModel || b.context != c
  }

  /** Whatever the validator reports, the configuration has that fault. */
  lemma RefusalNamesAFault(cfg: Config)
    ensures match Verdict(cfg)
            case IniOk => true
            case InvalidValue =>
              cfg.version == 0 || cfg.activeModel == "" || exists m :: m in cfg.models && !(1 <= m.contexts <= 16)
            case InvalidContext =>
              cfg.bootContext >= ActiveContexts(cfg) || exists c: u8 :: c < ActiveContexts(cfg) && Unbound(cfg, c)
            case LayoutNotFound =>
              exists b :: b in cfg.bindings && b.model == cfg.activeModel && b.context < ActiveContexts(cfg)
                          && forall l | l in cfg.layouts :: l.model != cfg.activeModel || l.name != b.layout
            case ModelNotFound =>
              || (forall m | m in cfg.models :: m.name != cfg.activeModel)
              || (exists l :: l in cfg.layouts && LayoutFault(cfg, l, ModelNotFound))
            case err => exists l :: l in cfg.layouts && LayoutFault(cfg, l, err)
  {
    var m := ModelIndex(cfg.models, cfg.activeModel);
    if m < |cfg.models| {
      if i :| 0 <= i < |cfg.models| && !ModelSizeOk(cfg.models[i]) {
        assert cfg.models[i] in cfg.models;
      }
      if LayoutsVerdict(cfg, 0) != IniOk {
        LayoutsRefusal(cfg, 0);
      }
      if BindingsVerdict(cfg, cfg.models[m].contexts, 0) != IniOk {
        BindingsRefusal(cfg, cfg.models[m].contexts, 0);
      }
    }
  }
}
