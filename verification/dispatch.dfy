/** The slide-id dispatch: which registry slots each slide's initializers may
    fill, in what order, and in which style. */
module Dispatch {
  import opened Wrappers
  import opened Registry

  /** The initializers one slide runs: their slots in call order and how
      each treats its slot. */
  datatype Entry = Entry(slots: seq<Slot>, kind: Kind)

  /** The dispatch table. Slides with no chart of the registry (ones that only
      start animations, build detail markup or the 3D model, and unknown ids)
      run no registry initializer. */
  function Plan(id: string): (e: Entry)
    ensures NoDup(e.slots)
    ensures e.kind == InlineUnguarded <==> id == "tcm-revival"
    ensures e.kind == InlineUnguarded ==> e.slots == [TcmGrowth]
  {
    if id == "landing" then Entry([OrganChart], Standalone)
    else if id == "tcm-revival" then Entry([TcmGrowth], InlineUnguarded)
    else if id == "background-part2" then Entry([MarketTrend, TcmGrowth], Standalone)
    else if id == "market" then Entry([MarketSize, AgeDist], Standalone)
    else if id == "market-part15" then Entry([AgeDist], Inline)
    else if id == "market-part2" then Entry([GlobalShare, Competitor], Standalone)
    else if id == "market-part25" then Entry([Competitor], Inline)
    else if id == "market-part4" then Entry([MarketShareChart, InvestmentReturnChart], Standalone)
    else if id == "market-part5" || id == "market-part55" then
      Entry([PatientSatisfactionChart, MedicineCostChart], Standalone)
    else if id == "technology" then Entry([PulseAnalysis, ElementChart], Standalone)
    else if id == "technology-part15" then Entry([ElementChart], Inline)
    else if id == "technology-part2" then Entry([AlgoAccuracy, SignalChart], Standalone)
    else if id == "technology-part25" then Entry([SignalChart], Inline)
    else if id == "use-cases" then Entry([UserProgress, CorporateHealth], Standalone)
    else if id == "use-cases-part2" then Entry([CorporateHealth], Inline)
    else if id == "research" then Entry([Clinical, AlgoProgress], Standalone)
    else if id == "research-part2" then Entry([AlgoProgress], Inline)
    else if id == "global-vision" then Entry([GlobalExpansion], Standalone)
    else Entry([], Inline)
  }

  /** Run the initializers the slide `id` dispatches to. Only the slots of its
      entry can change, and any instance it leaves in a changed slot is new. */
  function InitializeChartsBySlideId(c: Charts, env: Env, id: string): (r: Charts)
    requires Full(c.reg)
    ensures Full(r.reg)
    ensures forall s :: s !in Plan(id).slots ==> r.reg[s] == c.reg[s]
    ensures forall s :: r.reg[s].Some? && r.reg[s] != c.reg[s] ==> c.next <= r.reg[s].value < r.next
    ensures c.destroyed <= r.destroyed
    ensures r.errors == c.errors
  {
    Group(c, env, Plan(id).slots, Plan(id).kind)
  }

  /** With the chart library loaded, initializers over distinct empty slots
      fill exactly the slots whose mount exists and whose construction works. */
  lemma {:induction false} GroupFillsMounted(c: Charts, env: Env, slots: seq<Slot>, kind: Kind)
    requires Full(c.reg) && env.chartLoaded
    requires NoDup(slots) && forall t :: t in slots ==> c.reg[t] == None
    ensures forall t :: t in slots ==>
      (Group(c, env, slots, kind).reg[t].Some? <==> MountId(t) in env.mounts && t !in env.failing)
    decreases |slots|
  {
    if |slots| > 0 {
      var st := InitChart(c, env, slots[0], kind);
      assert !st.halted;
      forall t | t in slots[1..] ensures st.charts.reg[t] == None {
        var i :| 1 <= i < |slots| && slots[i] == t;
        assert slots[0] != slots[i];
      }
      assert NoDup(slots[1..]);
      GroupFillsMounted(st.charts, env, slots[1..], kind);
      assert slots[0] !in slots[1..];
    }
  }

  /** Without the chart library no initializer over empty slots stores an
      instance: every slot stays empty. */
  lemma {:induction false} GroupWithoutLibrary(c: Charts, env: Env, slots: seq<Slot>, kind: Kind)
    requires Full(c.reg) && !env.chartLoaded
    requires forall t :: t in slots ==> c.reg[t] == None
    ensures Group(c, env, slots, kind).reg == c.reg
    ensures Group(c, env, slots, kind).next == c.next
    decreases |slots|
  {
    if |slots| > 0 {
      var st := InitChart(c, env, slots[0], kind);
      assert st.charts.reg == c.reg;
      if !st.halted {
        GroupWithoutLibrary(st.charts, env, slots[1..], kind);
      }
    }
  }

  /** On an emptied registry, the slide's initializers keep the ownership
      invariant, never call destroy(), and leave an instance exactly in the
      entry slots whose mount exists, when the library is loaded and the
      construction works; without the library they leave every slot empty. */
  lemma InitializeAfterTeardown(c: Charts, env: Env, id: string)
    requires WF(c) && forall s :: c.reg[s] == None
    ensures var r := InitializeChartsBySlideId(c, env, id);
      && WF(r)
      && r.destroyed == c.destroyed
      && (forall s :: r.reg[s].Some? ==> s in Plan(id).slots)
      && (env.chartLoaded ==>
            forall s :: s in Plan(id).slots ==>
              (r.reg[s].Some? <==> MountId(s) in env.mounts && s !in env.failing))
      && (!env.chartLoaded ==> forall s :: r.reg[s] == None)
  {
    var e := Plan(id);
    GroupPreservesWF(c, env, e.slots, e.kind);
    GroupDestroysNothing(c, env, e.slots, e.kind);
    if env.chartLoaded {
      GroupFillsMounted(c, env, e.slots, e.kind);
    } else {
      GroupWithoutLibrary(c, env, e.slots, e.kind);
    }
  }

  /** Dispatching "tcm-revival" twice without tearing down in between, with the
      mount present and a working library, drops the first instance without
      calling destroy() on it: the ownership invariant is lost. The page never
      does this, because every dispatch follows destroyAllCharts. */
  lemma TcmRevivalTwiceLeaks(c: Charts, env: Env)
    requires WF(c) && forall s :: c.reg[s] == None
    requires MountId(TcmGrowth) in env.mounts && Builds(env, TcmGrowth)
    ensures var once := InitializeChartsBySlideId(c, env, "tcm-revival");
            var twice := InitializeChartsBySlideId(once, env, "tcm-revival");
      && once.reg[TcmGrowth] == Some(c.next)
      && c.next !in twice.destroyed
      && !WF(twice)
  {
  }
}
