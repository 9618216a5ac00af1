/** The global chart registry: one slot per chart name, each holding the
    handle of a live chart instance or nothing, together with the two
    operations that touch it — tearing every chart down, and the
    destroy-then-create step that every chart initializer performs. */
module Registry {
  import opened Wrappers

  /** The twenty registry keys, in the order the registry literal lists them. */
  datatype Slot =
    | MarketTrend | TcmGrowth | OrganChart | MarketSize | AgeDist
    | GlobalShare | Competitor | PulseAnalysis | ElementChart | UserProgress
    | CorporateHealth | Clinical | AlgoProgress | GlobalExpansion | AlgoAccuracy
    | SignalChart | MarketShareChart | InvestmentReturnChart
    | PatientSatisfactionChart | MedicineCostChart

  /** The key order in which destroying all charts visits the registry. */
  const AllSlots: seq<Slot> := [
    MarketTrend, TcmGrowth, OrganChart, MarketSize, AgeDist,
    GlobalShare, Competitor, PulseAnalysis, ElementChart, UserProgress,
    CorporateHealth, Clinical, AlgoProgress, GlobalExpansion, AlgoAccuracy,
    SignalChart, MarketShareChart, InvestmentReturnChart,
    PatientSatisfactionChart, MedicineCostChart
  ]

  /** The id of the canvas element a slot's chart is mounted on. */
  function MountId(s: Slot): string {
    match s
    case MarketTrend => "marketTrendChart"
    case TcmGrowth => "tcmGrowthChart"
    case OrganChart => "organChart"
    case MarketSize => "marketSizeChart"
    case AgeDist => "ageDistributionChart"
    case GlobalShare => "globalShareChart"
    case Competitor => "competitorChart"
    case PulseAnalysis => "pulseAnalysisChart"
    case ElementChart => "elementChart"
    case UserProgress => "userProgressChart"
    case CorporateHealth => "corporateHealthChart"
    case Clinical => "clinicalChart"
    case AlgoProgress => "algoProgressChart"
    case GlobalExpansion => "globalExpansionMap"
    case AlgoAccuracy => "algoAccuracyChart"
    case SignalChart => "signalProcessingChart"
    case MarketShareChart => "marketShareChart"
    case InvestmentReturnChart => "investmentReturnChart"
    case PatientSatisfactionChart => "patientSatisfactionChart"
    case MedicineCostChart => "medicineCostChart"
  }

  /** An opaque chart-library instance; the model numbers them in creation order. */
  type Handle = nat

  /** The registry and what the page has observably done with chart instances:
      `next` is the number of instances created so far, `destroyed` the handles
      on which destroy() was called, in call order, `errors` the slots whose
      destroy() threw and was logged, and `fallbacks` the slots for which a
      static placeholder was drawn. */
  datatype Charts = Charts(
    reg: map<Slot, Option<Handle>>,
    next: Handle,
    destroyed: seq<Handle>,
    errors: seq<Slot>,
    fallbacks: seq<Slot>)

  /** What the page's surroundings decide: which element ids the markup has,
      whether the chart library is loaded, which slots' chart construction
      throws, and which instances throw from destroy(). */
  datatype Env = Env(
    mounts: set<string>,
    chartLoaded: bool,
    failing: set<Slot>,
    brokenDestroy: set<Handle>)

  /** How an initializer treats its slot. `Standalone` is an init* function:
      it destroys the old instance and, when the library is missing, draws the
      placeholder and returns, skipping any later chart of the same function.
      `Inline` is a slide-specific switch branch that destroys the old instance
      and falls back without returning. `InlineUnguarded` is the branch that
      assigns a new instance without destroying the old one. */
  datatype Kind = Standalone | Inline | InlineUnguarded

  /** The registry after one initializer step, and whether it returned early. */
  datatype Step = Step(charts: Charts, halted: bool)

  predicate NoDup<T(==)>(xs: seq<T>) {
    forall i, j :: 0 <= i < j < |xs| ==> xs[i] != xs[j]
  }

  function Elems<T>(xs: seq<T>): set<T> {
    set x | x in xs
  }

  /** Every registry key is present, as in the registry literal. */
  ghost predicate Full(reg: map<Slot, Option<Handle>>) {
    forall s: Slot :: s in reg
  }

  /** The handles held by the slots in `keys`. */
  function LiveOn(reg: map<Slot, Option<Handle>>, keys: set<Slot>): set<Handle> {
    set s | s in keys && s in reg && reg[s].Some? :: reg[s].value
  }

  /** The handles held by any slot. */
  function Live(reg: map<Slot, Option<Handle>>): set<Handle> {
    LiveOn(reg, reg.Keys)
  }

  /** No handle is held by two slots. */
  ghost predicate Exclusive(reg: map<Slot, Option<Handle>>)
    requires Full(reg)
  {
    forall s, t :: s != t && reg[s].Some? && reg[t].Some? ==> reg[s].value != reg[t].value
  }

  /** Every live handle was created. */
  ghost predicate Allocated(c: Charts)
    requires Full(c.reg)
  {
    forall s :: c.reg[s].Some? ==> c.reg[s].value < c.next
  }

  /** No live handle has had destroy() called on it. */
  ghost predicate Undestroyed(c: Charts)
    requires Full(c.reg)
  {
    forall s :: c.reg[s].Some? ==> c.reg[s].value !in c.destroyed
  }

  /** Only created handles were destroyed. */
  ghost predicate DestroyedAllocated(c: Charts) {
    forall i :: 0 <= i < |c.destroyed| ==> c.destroyed[i] < c.next
  }

  /** Every handle ever created is live or destroyed: nothing has leaked. */
  ghost predicate Accounted(c: Charts) {
    forall h: nat :: h < c.next ==> h in c.destroyed || h in Live(c.reg)
  }

  /** Registry ownership invariant: every slot exists; live handles were created,
      belong to one slot only and were never destroyed; destroy() was called at
      most once per handle; and every handle ever created is either live or
      destroyed, so nothing has leaked. */
  ghost predicate WF(c: Charts) {
    && Full(c.reg)
    && Allocated(c)
    && Exclusive(c.reg)
    && Undestroyed(c)
    && NoDup(c.destroyed)
    && DestroyedAllocated(c)
    && Accounted(c)
  }

  /** The registry as the page loads it: every slot empty, nothing created yet. */
  function Empty(): (c: Charts)
    ensures WF(c)
    ensures forall s :: c.reg[s] == None
  {
    AllSlotsEnumerates();
    Charts(map s | s in AllSlots :: None, 0, [], [], [])
  }

  /** The handles held by `keys`, in key order. */
  function LiveIn(reg: map<Slot, Option<Handle>>, keys: seq<Slot>): seq<Handle>
    requires Full(reg)
  {
    if |keys| == 0 then []
    else
      LiveIn(reg, keys[..|keys| - 1])
      + (match reg[keys[|keys| - 1]] case Some(h) => [h] case None => [])
  }

  /** The slots among `keys` whose instance throws from destroy(), in key order. */
  function ThrowingIn(reg: map<Slot, Option<Handle>>, keys: seq<Slot>, broken: set<Handle>): seq<Slot>
    requires Full(reg)
  {
    if |keys| == 0 then []
    else
      ThrowingIn(reg, keys[..|keys| - 1], broken)
      + (match reg[keys[|keys| - 1]] case Some(h) => if h in broken then [keys[|keys| - 1]] else [] case None => [])
  }

  /** Destroy one slot's instance, if any, and clear the slot; a throwing
      destroy() is caught and logged and the slot is cleared all the same. */
  function DestroyOne(c: Charts, s: Slot, broken: set<Handle>): (r: Charts)
    requires Full(c.reg)
    ensures Full(r.reg)
    ensures r.reg == c.reg[s := None]
    ensures r.destroyed == c.destroyed + (match c.reg[s] case Some(h) => [h] case None => [])
    ensures r.errors
            == c.errors + (match c.reg[s] case Some(h) => if h in broken then [s] else [] case None => [])
    ensures r.next == c.next && r.fallbacks == c.fallbacks
  {
    match c.reg[s]
    case None => c
    case Some(h) =>
      c.(reg := c.reg[s := None],
         destroyed := c.destroyed + [h],
         errors := c.errors + (if h in broken then [s] else []))
  }

  /** Visit `keys` in order, destroying and clearing every occupied slot. */
  function DestroyKeys(c: Charts, keys: seq<Slot>, broken: set<Handle>): (r: Charts)
    requires Full(c.reg)
    requires NoDup(keys)
    ensures Full(r.reg)
    ensures forall s :: s in keys ==> r.reg[s] == None
    ensures forall s :: s !in keys ==> r.reg[s] == c.reg[s]
    ensures r.destroyed == c.destroyed + LiveIn(c.reg, keys)
    ensures r.errors == c.errors + ThrowingIn(c.reg, keys, broken)
    ensures r.next == c.next && r.fallbacks == c.fallbacks
    decreases |keys|
  {
    if |keys| == 0 then c
    else
      var front := keys[..|keys| - 1];
      var last := keys[|keys| - 1];
      NoDupFront(keys);
      var d := DestroyKeys(c, front, broken);
      assert d.reg[last] == c.reg[last];
      DestroyOne(d, last, broken)
  }

  /** Dropping the last element keeps a duplicate-free sequence duplicate-free
      and leaves that element out. */
  lemma NoDupFront<T>(xs: seq<T>)
    requires NoDup(xs) && 0 < |xs|
    ensures NoDup(xs[..|xs| - 1])
    ensures xs[|xs| - 1] !in xs[..|xs| - 1]
  {
  }

  lemma AllSlotsEnumerates()
    ensures NoDup(AllSlots)
    ensures forall s: Slot :: s in AllSlots
  {
    forall s: Slot ensures s in AllSlots {
      match s
      case MarketTrend =>
      case TcmGrowth =>
      case OrganChart =>
      case MarketSize =>
      case AgeDist =>
      case GlobalShare =>
      case Competitor =>
      case PulseAnalysis =>
      case ElementChart =>
      case UserProgress =>
      case CorporateHealth =>
      case Clinical =>
      case AlgoProgress =>
      case GlobalExpansion =>
      case AlgoAccuracy =>
      case SignalChart =>
      case MarketShareChart =>
      case InvestmentReturnChart =>
      case PatientSatisfactionChart =>
      case MedicineCostChart =>
    }
  }

  /** Tear down every chart: afterwards every slot is empty, destroy() was
      called on exactly the previously live handles in key order (a throwing
      one is logged), and nothing is created. */
  function DestroyAllCharts(c: Charts, broken: set<Handle>): (r: Charts)
    requires Full(c.reg)
    ensures Full(r.reg)
    ensures forall s :: r.reg[s] == None
    ensures r.destroyed == c.destroyed + LiveIn(c.reg, AllSlots)
    ensures r.errors == c.errors + ThrowingIn(c.reg, AllSlots, broken)
    ensures r.next == c.next && r.fallbacks == c.fallbacks
  {
    AllSlotsEnumerates();
    DestroyKeys(c, AllSlots, broken)
  }

  /** Whether the chart for `s` is constructed: the library is loaded and
      construction does not throw. */
  predicate Builds(env: Env, s: Slot) {
    env.chartLoaded && s !in env.failing
  }

  /** One chart initializer for slot `s`: with no mount element nothing
      happens; otherwise the old instance is destroyed and the slot cleared
      (except for `InlineUnguarded`), then either a new instance is stored or
      the placeholder is drawn and the slot stays without a new instance. */
  function InitChart(c: Charts, env: Env, s: Slot, kind: Kind): (r: Step)
    requires Full(c.reg)
    ensures Full(r.charts.reg)
    ensures forall t :: t != s ==> r.charts.reg[t] == c.reg[t]
    ensures MountId(s) !in env.mounts ==> r == Step(c, false)
    ensures MountId(s) in env.mounts ==>
      && r.halted == (kind == Standalone && !env.chartLoaded)
      && r.charts.destroyed
         == c.destroyed + (if kind != InlineUnguarded && c.reg[s].Some? then [c.reg[s].value] else [])
      && (Builds(env, s) ==> r.charts.reg[s] == Some(c.next) && r.charts.next == c.next + 1
                             && r.charts.fallbacks == c.fallbacks)
      && (!Builds(env, s) ==> r.charts.reg[s] == (if kind == InlineUnguarded then c.reg[s] else None)
                              && r.charts.next == c.next && r.charts.fallbacks == c.fallbacks + [s])
    ensures r.charts.errors == c.errors
  {
    if MountId(s) !in env.mounts then Step(c, false)
    else
      var cleared := if kind != InlineUnguarded && c.reg[s].Some? then Clear(c, s) else c;
      if Builds(env, s) then Step(Store(cleared, s), false)
      else Step(cleared.(fallbacks := cleared.fallbacks + [s]), kind == Standalone && !env.chartLoaded)
  }

  /** Call destroy() on the slot's instance and clear the slot. */
  function Clear(c: Charts, s: Slot): (r: Charts)
    requires Full(c.reg) && c.reg[s].Some?
  {
    c.(reg := c.reg[s := None], destroyed := c.destroyed + [c.reg[s].value])
  }

  /** Store a newly constructed instance in the slot. */
  function Store(c: Charts, s: Slot): (r: Charts)
    requires Full(c.reg)
  {
    c.(reg := c.reg[s := Some(c.next)], next := c.next + 1)
  }

  /** The initializers for `slots`, run in order until one returns early. */
  function Group(c: Charts, env: Env, slots: seq<Slot>, kind: Kind): (r: Charts)
    requires Full(c.reg)
    ensures Full(r.reg)
    ensures forall t :: t !in slots ==> r.reg[t] == c.reg[t]
    ensures c.next <= r.next
    ensures forall t :: r.reg[t].Some? && r.reg[t] != c.reg[t] ==> c.next <= r.reg[t].value < r.next
    ensures c.destroyed <= r.destroyed
    ensures r.errors == c.errors
    decreases |slots|
  {
    if |slots| == 0 then c
    else
      var st := InitChart(c, env, slots[0], kind);
      if st.halted then st.charts else Group(st.charts, env, slots[1..], kind)
  }

  // ---------------------------------------------------------------------
  // Lemmas about tearing down

  /** The handles LiveIn lists are exactly those the listed slots hold. */
  lemma {:induction false} LiveInElems(reg: map<Slot, Option<Handle>>, keys: seq<Slot>)
    requires Full(reg)
    ensures Elems(LiveIn(reg, keys)) == LiveOn(reg, Elems(keys))
    decreases |keys|
  {
    if |keys| > 0 {
      var front := keys[..|keys| - 1];
      var last := keys[|keys| - 1];
      LiveInElems(reg, front);
      assert keys == front + [last];
      assert Elems(keys) == Elems(front) + {last};
      var tail := match reg[last] case Some(h) => [h] case None => [];
      assert LiveIn(reg, keys) == LiveIn(reg, front) + tail;
      assert Elems(LiveIn(reg, keys)) == Elems(LiveIn(reg, front)) + Elems(tail);
      assert LiveOn(reg, Elems(keys)) == LiveOn(reg, Elems(front)) + Elems(tail);
    }
  }

  /** Distinct slots holding distinct handles are listed without repetition. */
  lemma {:induction false} LiveInNoDup(reg: map<Slot, Option<Handle>>, keys: seq<Slot>)
    requires Full(reg) && Exclusive(reg) && NoDup(keys)
    ensures NoDup(LiveIn(reg, keys))
    decreases |keys|
  {
    if |keys| > 0 {
      var front := keys[..|keys| - 1];
      var last := keys[|keys| - 1];
      NoDupFront(keys);
      LiveInNoDup(reg, front);
      LiveInElems(reg, front);
      if reg[last].Some? {
        var h := reg[last].value;
        assert h !in LiveOn(reg, Elems(front));
        NoDupSnoc(LiveIn(reg, front), h);
      }
    }
  }

  lemma NoDupSnoc<T>(xs: seq<T>, x: T)
    requires NoDup(xs) && x !in xs
    ensures NoDup(xs + [x])
  {
  }

  lemma NoDupConcat<T>(xs: seq<T>, ys: seq<T>)
    requires NoDup(xs) && NoDup(ys)
    requires forall y :: y in ys ==> y !in xs
    ensures NoDup(xs + ys)
  {
    var zs := xs + ys;
    forall i, j | 0 <= i < j < |zs| ensures zs[i] != zs[j] {
      if j < |xs| {
        assert zs[i] == xs[i] && zs[j] == xs[j];
      } else if i < |xs| {
        assert zs[i] == xs[i] && zs[j] == ys[j - |xs|];
        assert ys[j - |xs|] in ys;
      } else if i >= |xs| {
        assert zs[i] == ys[i - |xs|] && zs[j] == ys[j - |xs|];
      }
    }
  }

  /** Visiting distinct keys calls destroy() on each handle they hold
      exactly once and on nothing else. */
  lemma DestroyKeysDestroysEachOnce(c: Charts, keys: seq<Slot>, broken: set<Handle>)
    requires Full(c.reg) && Exclusive(c.reg) && NoDup(keys)
    ensures var r := DestroyKeys(c, keys, broken);
      && Elems(r.destroyed[|c.destroyed|..]) == LiveOn(c.reg, Elems(keys))
      && NoDup(r.destroyed[|c.destroyed|..])
  {
    var r := DestroyKeys(c, keys, broken);
    assert r.destroyed[|c.destroyed|..] == LiveIn(c.reg, keys);
    LiveInElems(c.reg, keys);
    LiveInNoDup(c.reg, keys);
  }

  /** The registry order lists every slot. */
  lemma AllSlotsCover(reg: map<Slot, Option<Handle>>)
    requires Full(reg)
    ensures NoDup(AllSlots)
    ensures Elems(AllSlots) == reg.Keys
    ensures LiveOn(reg, Elems(AllSlots)) == Live(reg)
  {
    AllSlotsEnumerates();
  }

  /** Destroying all charts calls destroy() on every previously live handle
      exactly once and on nothing else. */
  lemma DestroyAllDestroysEachOnce(c: Charts, broken: set<Handle>)
    requires WF(c)
    ensures var r := DestroyAllCharts(c, broken);
      && Elems(r.destroyed[|c.destroyed|..]) == Live(c.reg)
      && NoDup(r.destroyed[|c.destroyed|..])
  {
    AllSlotsCover(c.reg);
    DestroyKeysDestroysEachOnce(c, AllSlots, broken);
  }

  /** A destroy() that throws is logged once for its slot, and the slot is
      cleared all the same; nothing else is logged. */
  lemma DestroyAllLogsThrowingDestroys(c: Charts, broken: set<Handle>)
    requires Full(c.reg)
    ensures var r := DestroyAllCharts(c, broken);
      && (forall s :: s in r.errors[|c.errors|..] <==> c.reg[s].Some? && c.reg[s].value in broken)
      && (forall s :: r.reg[s] == None)
  {
    var r := DestroyAllCharts(c, broken);
    AllSlotsCover(c.reg);
    assert r.errors[|c.errors|..] == ThrowingIn(c.reg, AllSlots, broken);
    ThrowingInElems(c.reg, AllSlots, broken);
  }

  /** ThrowingIn lists exactly the listed slots whose handle is broken. */
  lemma {:induction false} ThrowingInElems(reg: map<Slot, Option<Handle>>, keys: seq<Slot>, broken: set<Handle>)
    requires Full(reg)
    ensures forall s :: s in ThrowingIn(reg, keys, broken) <==> s in keys && reg[s].Some? && reg[s].value in broken
    decreases |keys|
  {
    if |keys| > 0 {
      var front := keys[..|keys| - 1];
      var last := keys[|keys| - 1];
      ThrowingInElems(reg, front, broken);
      assert keys == front + [last];
    }
  }

  /** The destroy log stays free of repeats and of uncreated handles. */
  lemma DestroyKeysLogIsFresh(c: Charts, keys: seq<Slot>, broken: set<Handle>)
    requires WF(c) && NoDup(keys)
    ensures NoDup(DestroyKeys(c, keys, broken).destroyed)
    ensures DestroyedAllocated(DestroyKeys(c, keys, broken))
  {
    var r := DestroyKeys(c, keys, broken);
    var gone := r.destroyed[|c.destroyed|..];
    DestroyKeysDestroysEachOnce(c, keys, broken);
    assert r.destroyed == c.destroyed + gone;
    forall h | h in gone ensures h !in c.destroyed && h < c.next {
      assert h in LiveOn(c.reg, Elems(keys));
    }
    NoDupConcat(c.destroyed, gone);
    forall i | 0 <= i < |r.destroyed| ensures r.destroyed[i] < r.next {
      if i >= |c.destroyed| {
        assert r.destroyed[i] == gone[i - |c.destroyed|];
        assert r.destroyed[i] in gone;
      } else {
        assert r.destroyed[i] == c.destroyed[i];
      }
    }
  }

  /** Visiting every slot keeps the ownership invariant. */
  lemma DestroyKeysPreservesWF(c: Charts, keys: seq<Slot>, broken: set<Handle>)
    requires WF(c) && NoDup(keys)
    requires forall s: Slot :: s in keys
    ensures WF(DestroyKeys(c, keys, broken))
  {
    var r := DestroyKeys(c, keys, broken);
    DestroyKeysLogIsFresh(c, keys, broken);
    DestroyKeysDestroysEachOnce(c, keys, broken);
    assert Elems(keys) == c.reg.Keys;
    forall h: nat | h < r.next ensures h in r.destroyed || h in Live(r.reg) {
      if h in Live(c.reg) {
        assert h in Elems(r.destroyed[|c.destroyed|..]);
      }
    }
  }

  /** Destroying all charts keeps the ownership invariant. */
  lemma DestroyAllPreservesWF(c: Charts, broken: set<Handle>)
    requires WF(c)
    ensures WF(DestroyAllCharts(c, broken))
  {
    AllSlotsEnumerates();
    DestroyKeysPreservesWF(c, AllSlots, broken);
  }

  // ---------------------------------------------------------------------
  // Lemmas about initializers

  /** Moving a live handle to the destroyed log loses no handle. */
  lemma ClearKeepsAccounted(c: Charts, s: Slot)
    requires Full(c.reg) && c.reg[s].Some? && Accounted(c)
    ensures Accounted(Clear(c, s))
  {
    var h := c.reg[s].value;
    var r := Clear(c, s);
    forall h': nat | h' < r.next ensures h' in r.destroyed || h' in Live(r.reg) {
      if h' != h && h' !in c.destroyed {
        var t :| t in c.reg && c.reg[t].Some? && c.reg[t].value == h';
        assert t != s && r.reg[t] == c.reg[t];
      }
    }
  }

  /** Storing the next handle in an empty slot loses no handle. */
  lemma StoreKeepsAccounted(c: Charts, s: Slot)
    requires Full(c.reg) && c.reg[s] == None && Accounted(c)
    ensures Accounted(Store(c, s))
  {
    var r := Store(c, s);
    forall h': nat | h' < r.next ensures h' in r.destroyed || h' in Live(r.reg) {
      if h' == c.next {
        assert r.reg[s] == Some(h');
      } else if h' !in c.destroyed {
        var t :| t in c.reg && c.reg[t].Some? && c.reg[t].value == h';
        assert t != s && r.reg[t] == c.reg[t];
      }
    }
  }

  /** Destroying and clearing one occupied slot keeps the ownership invariant. */
  lemma ClearPreservesWF(c: Charts, s: Slot)
    requires WF(c) && c.reg[s].Some?
    ensures WF(Clear(c, s))
  {
    NoDupSnoc(c.destroyed, c.reg[s].value);
    ClearKeepsAccounted(c, s);
  }

  /** Storing a fresh handle in an empty slot keeps the ownership invariant. */
  lemma StorePreservesWF(c: Charts, s: Slot)
    requires WF(c) && c.reg[s] == None
    ensures WF(Store(c, s))
  {
    StoreKeepsAccounted(c, s);
  }

  /** An initializer step keeps the ownership invariant, unless it is the
      unguarded kind and its slot already holds an instance. */
  lemma InitChartPreservesWF(c: Charts, env: Env, s: Slot, kind: Kind)
    requires WF(c)
    requires kind != InlineUnguarded || c.reg[s] == None
    ensures WF(InitChart(c, env, s, kind).charts)
  {
    if MountId(s) in env.mounts {
      var cleared := if kind != InlineUnguarded && c.reg[s].Some? then Clear(c, s) else c;
      if kind != InlineUnguarded && c.reg[s].Some? {
        ClearPreservesWF(c, s);
      }
      if Builds(env, s) {
        StorePreservesWF(cleared, s);
      }
    }
  }

  /** A run of initializer steps keeps the ownership invariant; the unguarded
      kind needs its slots to be distinct and empty beforehand. */
  lemma {:induction false} GroupPreservesWF(c: Charts, env: Env, slots: seq<Slot>, kind: Kind)
    requires WF(c)
    requires kind != InlineUnguarded || (NoDup(slots) && forall t :: t in slots ==> c.reg[t] == None)
    ensures WF(Group(c, env, slots, kind))
    decreases |slots|
  {
    if |slots| > 0 {
      var st := InitChart(c, env, slots[0], kind);
      InitChartPreservesWF(c, env, slots[0], kind);
      if !st.halted {
        if kind == InlineUnguarded {
          forall t | t in slots[1..] ensures st.charts.reg[t] == None {
            var i :| 1 <= i < |slots| && slots[i] == t;
            assert slots[0] != slots[i];
          }
        }
        GroupPreservesWF(st.charts, env, slots[1..], kind);
      }
    }
  }

  /** Over distinct, empty slots a run of initializers never calls destroy(),
      so a throwing destroy() cannot escape from it. */
  lemma {:induction false} GroupDestroysNothing(c: Charts, env: Env, slots: seq<Slot>, kind: Kind)
    requires Full(c.reg)
    requires NoDup(slots) && forall t :: t in slots ==> c.reg[t] == None
    ensures Group(c, env, slots, kind).destroyed == c.destroyed
    decreases |slots|
  {
    if |slots| > 0 {
      var st := InitChart(c, env, slots[0], kind);
      if !st.halted {
        forall t | t in slots[1..] ensures st.charts.reg[t] == None {
          var i :| 1 <= i < |slots| && slots[i] == t;
          assert slots[0] != slots[i];
        }
        assert NoDup(slots[1..]);
        GroupDestroysNothing(st.charts, env, slots[1..], kind);
      }
    }
  }

  /** Running a destroying initializer twice on a mounted slot with a working
      library destroys the first instance before the second is stored: only
      the second is live and the first appears once among the destroyed. */
  lemma InitTwiceDestroysFirst(c: Charts, env: Env, s: Slot, kind: Kind)
    requires WF(c)
    requires kind != InlineUnguarded
    requires MountId(s) in env.mounts && Builds(env, s)
    requires c.next !in env.brokenDestroy
    ensures var once := InitChart(c, env, s, kind).charts;
            var twice := InitChart(once, env, s, kind).charts;
      && once.reg[s] == Some(c.next)
      && twice.reg[s] == Some(c.next + 1)
      && twice.destroyed[|twice.destroyed| - 1] == c.next
      && c.next !in Live(twice.reg)
      && WF(twice)
  {
    var once := InitChart(c, env, s, kind).charts;
    InitChartPreservesWF(c, env, s, kind);
    InitChartPreservesWF(once, env, s, kind);
    var twice := InitChart(once, env, s, kind).charts;
    assert c.next in twice.destroyed;
  }

  /** The unguarded initializer, run on a slot that still holds an instance,
      overwrites the handle without destroying it: afterwards that instance is
      neither live nor destroyed. */
  lemma UnguardedOverwriteLeaks(c: Charts, env: Env, s: Slot)
    requires WF(c)
    requires c.reg[s].Some?
    requires MountId(s) in env.mounts && Builds(env, s)
    ensures var r := InitChart(c, env, s, InlineUnguarded).charts;
      && c.reg[s].value !in r.destroyed
      && c.reg[s].value !in Live(r.reg)
      && !WF(r)
  {
  }
}
