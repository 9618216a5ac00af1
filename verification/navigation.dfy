/** The Presentation controller: the ordered slides with their active flags,
    the current index, the counter and progress displays, and the chart
    registry they drive; the transitions the page's events fire. */
module Navigation {
  import opened Wrappers
  import opened Decimal
  import opened Registry
  import opened Dispatch

  /** A slide element: its id and whether it carries the active class (and is
      displayed). */
  datatype Slide = Slide(id: string, active: bool)

  /** The controller's state. `counter` is the counter element's text (empty
      until the first slide is shown) and `progress` the progress bar's width
      in percent (unset until then). */
  datatype Presentation = Presentation(
    slides: seq<Slide>,
    currentIndex: int,
    counter: string,
    progress: Option<Percent>,
    charts: Charts)

  /** What reaches the document's event listeners. A click's target is given
      by the classes on the clicked element and its ancestors. A press on one
      of the two navigation buttons runs the button's own handler and then
      bubbles to the document as a click inside the navigation controls. */
  datatype Event =
    | KeyDown(key: string)
    | Click(target: set<string>)
    | Resize
    | PrevButton
    | NextButton

  /** The classes a navigation button and its container carry. */
  const ButtonTarget: set<string> := {"nav-button", "nav-controls"}

  // ---------------------------------------------------------------------
  // Displays

  /** The counter text for showing slide number `shown` of `total`. */
  function CounterText(shown: nat, total: nat): string {
    Show(shown) + " / " + Show(total)
  }

  /** The position of the first space in `t`, or |t| if there is none. */
  function SpaceAt(t: string): (k: nat)
    ensures k <= |t|
    ensures forall i :: 0 <= i < k ==> t[i] != ' '
    ensures k < |t| ==> t[k] == ' '
  {
    if |t| == 0 || t[0] == ' ' then 0 else 1 + SpaceAt(t[1..])
  }

  /** What a reader takes from a counter text: the two numbers either side
      of " / ", or nothing if the text is not of that shape. */
  function ReadCounter(t: string): Option<(nat, nat)> {
    var k := SpaceAt(t);
    if 0 < k && k + 3 < |t| && t[k..k + 3] == " / " && AllDigits(t[..k]) && AllDigits(t[k + 3..])
    then Some((Parse(t[..k]), Parse(t[k + 3..])))
    else None
  }

  /** The counter text reads back as the slide number and the slide count. */
  lemma CounterTextReads(shown: nat, total: nat)
    ensures ReadCounter(CounterText(shown, total)) == Some((shown, total))
  {
    var a := Show(shown);
    var t := CounterText(shown, total);
    assert t == a + (" / " + Show(total));
    assert SpaceAt(t) == |a| by {
      forall i | 0 <= i < |a| ensures t[i] != ' ' {
        assert t[i] == a[i] && IsDigit(a[i]);
      }
      assert t[|a|] == ' ';
    }
    assert t[..|a|] == a;
    assert t[|a| + 3..] == Show(total);
    ParseShow(shown);
    ParseShow(total);
  }

  /** A width in percent, as the exact fraction `num / den`. */
  datatype Percent = Percent(num: nat, den: nat)

  /** Whether the width is exactly `k` percent. */
  predicate IsPercent(w: Percent, k: nat) {
    w.num == k * w.den
  }

  /** The progress bar's width after showing slide `index` of `total`:
      (index + 1) / total of 100 percent, positive, at most 100 percent, and
      exactly 100 percent only at the last slide. */
  function Progress(index: nat, total: nat): (w: Percent)
    requires index < total
    ensures w.den == total
    ensures 0 < w.num <= 100 * w.den
    ensures IsPercent(w, 100) <==> index == total - 1
  {
    Percent((index + 1) * 100, total)
  }

  // ---------------------------------------------------------------------
  // State predicates

  /** Exactly one slide is active, and it is slide `index`. */
  ghost predicate OnlyActive(slides: seq<Slide>, index: int) {
    forall j :: 0 <= j < |slides| ==> (slides[j].active <==> j == index)
  }

  /** The two slide lists are the same slides, in the same order. */
  ghost predicate SameIds(a: seq<Slide>, b: seq<Slide>) {
    |a| == |b| && forall j :: 0 <= j < |a| ==> a[j].id == b[j].id
  }

  /** What every Presentation object satisfies once constructed: the index
      names a slide and the registry has all its slots. */
  ghost predicate Valid(p: Presentation) {
    0 <= p.currentIndex < |p.slides| && Full(p.charts.reg)
  }

  /** The full invariant of a shown presentation: the current slide is the one
      active slide, the displays describe it, the registry keeps its ownership
      invariant, and only the current slide's dispatch slots hold instances. */
  ghost predicate Consistent(p: Presentation) {
    && Valid(p)
    && OnlyActive(p.slides, p.currentIndex)
    && p.counter == CounterText(p.currentIndex + 1, |p.slides|)
    && p.progress == Some(Progress(p.currentIndex, |p.slides|))
    && WF(p.charts)
    && forall s :: p.charts.reg[s].Some? ==> s in Plan(p.slides[p.currentIndex].id).slots
  }

  // ---------------------------------------------------------------------
  // Transitions

  /** Tear down every chart, make slide `index` the only active slide, update
      the displays and run the slide's initializers. The current index is
      not assigned here. */
  function ShowSlide(p: Presentation, index: int, env: Env): (r: Presentation)
    requires 0 <= index < |p.slides|
    requires Full(p.charts.reg)
    ensures OnlyActive(r.slides, index)
    ensures SameIds(r.slides, p.slides)
    ensures r.currentIndex == p.currentIndex
    ensures ReadCounter(r.counter) == Some((index + 1, |p.slides|))
    ensures r.progress == Some(Progress(index, |p.slides|))
    ensures Full(r.charts.reg)
    ensures p.charts.destroyed <= r.charts.destroyed
    ensures forall s :: r.charts.reg[s].Some? ==> s in Plan(p.slides[index].id).slots
  {
    var hidden := seq(|p.slides|, j requires 0 <= j < |p.slides| => p.slides[j].(active := false));
    var shown := hidden[index := hidden[index].(active := true)];
    var torn := DestroyAllCharts(p.charts, env.brokenDestroy);
    CounterTextReads(index + 1, |p.slides|);
    Presentation(
      shown,
      p.currentIndex,
      CounterText(index + 1, |p.slides|),
      Some(Progress(index, |p.slides|)),
      InitializeChartsBySlideId(torn, env, p.slides[index].id))
  }

  /** Advance one slide, unless already on the last one; never wraps. */
  function NextSlide(p: Presentation, env: Env): (r: Presentation)
    requires Valid(p)
    ensures Valid(r)
    ensures SameIds(r.slides, p.slides)
    ensures p.currentIndex < |p.slides| - 1 ==>
      r.currentIndex == p.currentIndex + 1 && OnlyActive(r.slides, r.currentIndex)
    ensures p.currentIndex < |p.slides| - 1 ==>
      r == ShowSlide(p.(currentIndex := p.currentIndex + 1), p.currentIndex + 1, env)
    ensures p.currentIndex == |p.slides| - 1 ==> r == p
  {
    if p.currentIndex < |p.slides| - 1 then
      ShowSlide(p.(currentIndex := p.currentIndex + 1), p.currentIndex + 1, env)
    else p
  }

  /** Go back one slide, unless already on the first one; never wraps. */
  function PrevSlide(p: Presentation, env: Env): (r: Presentation)
    requires Valid(p)
    ensures Valid(r)
    ensures SameIds(r.slides, p.slides)
    ensures p.currentIndex > 0 ==>
      r.currentIndex == p.currentIndex - 1 && OnlyActive(r.slides, r.currentIndex)
    ensures p.currentIndex > 0 ==>
      r == ShowSlide(p.(currentIndex := p.currentIndex - 1), p.currentIndex - 1, env)
    ensures p.currentIndex == 0 ==> r == p
  {
    if p.currentIndex > 0 then
      ShowSlide(p.(currentIndex := p.currentIndex - 1), p.currentIndex - 1, env)
    else p
  }

  /** Keys that advance: right arrow and space. */
  predicate IsForwardKey(key: string) {
    key == "ArrowRight" || key == " "
  }

  /** Right arrow or space advances, left arrow goes back, and every other key
      leaves the presentation untouched. */
  function HandleKeyPress(p: Presentation, key: string, env: Env): (r: Presentation)
    requires Valid(p)
    ensures Valid(r)
    ensures SameIds(r.slides, p.slides)
    ensures IsForwardKey(key) ==> r == NextSlide(p, env)
    ensures key == "ArrowLeft" ==> r == PrevSlide(p, env)
    ensures !IsForwardKey(key) && key != "ArrowLeft" ==> r == p
    ensures r.currentIndex ==
      if IsForwardKey(key) && p.currentIndex < |p.slides| - 1 then p.currentIndex + 1
      else if key == "ArrowLeft" && p.currentIndex > 0 then p.currentIndex - 1
      else p.currentIndex
  {
    if IsForwardKey(key) then NextSlide(p, env)
    else if key == "ArrowLeft" then PrevSlide(p, env)
    else p
  }

  /** Whether a click target lies outside the navigation controls, the
      navigation buttons and the slide content. */
  predicate OutsideControls(target: set<string>) {
    "nav-controls" !in target && "nav-button" !in target && "slide-content" !in target
  }

  /** A click advances exactly when it lands outside the navigation controls,
      the buttons and the slide content; otherwise nothing changes. */
  function HandleClick(p: Presentation, target: set<string>, env: Env): (r: Presentation)
    requires Valid(p)
    ensures Valid(r)
    ensures SameIds(r.slides, p.slides)
    ensures OutsideControls(target) ==> r == NextSlide(p, env)
    ensures !OutsideControls(target) ==> r == p
  {
    if OutsideControls(target) then NextSlide(p, env) else p
  }

  /** Rebuild the current slide's charts from scratch, if the index names a
      slide; the index, the slides and the displays stay as they are. */
  function HandleResize(p: Presentation, env: Env): (r: Presentation)
    requires Full(p.charts.reg)
    ensures r.slides == p.slides && r.currentIndex == p.currentIndex
    ensures r.counter == p.counter && r.progress == p.progress
    ensures Full(r.charts.reg)
    ensures !(0 <= p.currentIndex < |p.slides|) ==> r == p
    ensures 0 <= p.currentIndex < |p.slides| ==>
      forall s :: r.charts.reg[s].Some? ==> s in Plan(p.slides[p.currentIndex].id).slots
    ensures 0 <= p.currentIndex < |p.slides| ==>
      r.charts == ShowSlide(p, p.currentIndex, env).charts
  {
    if 0 <= p.currentIndex < |p.slides| then
      var torn := DestroyAllCharts(p.charts, env.brokenDestroy);
      p.(charts := InitializeChartsBySlideId(torn, env, p.slides[p.currentIndex].id))
    else p
  }

  /** One event, as the registered listeners handle it. */
  function Handle(p: Presentation, e: Event, env: Env): (r: Presentation)
    requires Valid(p)
    ensures Valid(r)
    ensures SameIds(r.slides, p.slides)
  {
    match e
    case KeyDown(key) => HandleKeyPress(p, key, env)
    case Click(target) => HandleClick(p, target, env)
    case Resize => HandleResize(p, env)
    case PrevButton => HandleClick(PrevSlide(p, env), ButtonTarget, env)
    case NextButton => HandleClick(NextSlide(p, env), ButtonTarget, env)
  }

  /** A sequence of events, handled in order. */
  function Run(p: Presentation, events: seq<Event>, env: Env): (r: Presentation)
    requires Valid(p)
    ensures Valid(r)
    ensures SameIds(r.slides, p.slides)
    decreases |events|
  {
    if |events| == 0 then p else Run(Handle(p, events[0], env), events[1..], env)
  }

  /** The constructor: collect the slides, start at index 0 and show slide 0
      against the empty registry. With no slides at all, showing slide 0
      throws, and no presentation results. */
  function Create(slides: seq<Slide>, env: Env): (r: Option<Presentation>)
    ensures r.Some? <==> 0 < |slides|
    ensures r.Some? ==> r.value.currentIndex == 0 && SameIds(r.value.slides, slides)
  {
    if |slides| == 0 then None
    else Some(ShowSlide(Presentation(slides, 0, "", None, Empty()), 0, env))
  }

  // ---------------------------------------------------------------------
  // Lemmas

  /** Showing a slide tears down every instance of the previous slide —
      destroy() is called exactly once on each previously live handle and on
      nothing else — keeps the registry's ownership invariant, and, with the
      library loaded, leaves an instance in exactly those entry slots of the
      slide whose mount exists and whose construction works. */
  lemma ShowSlideCharts(p: Presentation, index: int, env: Env)
    requires 0 <= index < |p.slides|
    requires WF(p.charts)
    ensures var r := ShowSlide(p, index, env);
      && WF(r.charts)
      && Elems(r.charts.destroyed[|p.charts.destroyed|..]) == Live(p.charts.reg)
      && NoDup(r.charts.destroyed[|p.charts.destroyed|..])
      && (env.chartLoaded ==>
            forall s :: s in Plan(p.slides[index].id).slots ==>
              (r.charts.reg[s].Some? <==> MountId(s) in env.mounts && s !in env.failing))
  {
    hide DestroyAllCharts, InitializeChartsBySlideId;
    var torn := DestroyAllCharts(p.charts, env.brokenDestroy);
    DestroyAllPreservesWF(p.charts, env.brokenDestroy);
    DestroyAllDestroysEachOnce(p.charts, env.brokenDestroy);
    InitializeAfterTeardown(torn, env, p.slides[index].id);
  }

  /** A resize tears down every instance and rebuilds the current slide's
      charts: destroy() is called exactly once on each previously live handle
      and on nothing else, the ownership invariant is kept, and, with the
      library loaded, exactly the slide's mounted, working entry slots hold an
      instance afterwards. */
  lemma ResizeRebuilds(p: Presentation, env: Env)
    requires 0 <= p.currentIndex < |p.slides|
    requires WF(p.charts)
    ensures var r := HandleResize(p, env);
      && WF(r.charts)
      && Elems(r.charts.destroyed[|p.charts.destroyed|..]) == Live(p.charts.reg)
      && NoDup(r.charts.destroyed[|p.charts.destroyed|..])
      && (env.chartLoaded ==>
            forall s :: s in Plan(p.slides[p.currentIndex].id).slots ==>
              (r.charts.reg[s].Some? <==> MountId(s) in env.mounts && s !in env.failing))
  {
    hide DestroyAllCharts, InitializeChartsBySlideId;
    ShowSlideCharts(p, p.currentIndex, env);
  }

  /** Moving to a slide and showing it yields a consistent presentation. */
  lemma ShowSlideConsistent(p: Presentation, index: int, env: Env)
    requires 0 <= index < |p.slides|
    requires WF(p.charts)
    ensures Consistent(ShowSlide(p.(currentIndex := index), index, env))
  {
    hide DestroyAllCharts, InitializeChartsBySlideId;
    var q := p.(currentIndex := index);
    ShowSlideCharts(q, index, env);
  }

  /** A navigation button press moves by exactly one slide: the press that
      bubbles to the document lands on the controls and does not advance again. */
  lemma ButtonMovesOnce(p: Presentation, env: Env)
    requires Valid(p)
    ensures Handle(p, NextButton, env) == NextSlide(p, env)
    ensures Handle(p, PrevButton, env) == PrevSlide(p, env)
  {
    hide DestroyAllCharts, InitializeChartsBySlideId;
    assert !OutsideControls(ButtonTarget);
  }

  /** Advancing keeps a consistent presentation consistent. */
  lemma NextKeepsConsistent(p: Presentation, env: Env)
    requires Consistent(p)
    ensures Consistent(NextSlide(p, env))
  {
    hide DestroyAllCharts, InitializeChartsBySlideId;
    if p.currentIndex < |p.slides| - 1 {
      ShowSlideConsistent(p, p.currentIndex + 1, env);
    }
  }

  /** Going back keeps a consistent presentation consistent. */
  lemma PrevKeepsConsistent(p: Presentation, env: Env)
    requires Consistent(p)
    ensures Consistent(PrevSlide(p, env))
  {
    hide DestroyAllCharts, InitializeChartsBySlideId;
    if p.currentIndex > 0 {
      ShowSlideConsistent(p, p.currentIndex - 1, env);
    }
  }

  /** Rebuilding the current slide's charts keeps a consistent presentation
      consistent. */
  lemma ResizeKeepsConsistent(p: Presentation, env: Env)
    requires Consistent(p)
    ensures Consistent(HandleResize(p, env))
  {
    hide DestroyAllCharts, InitializeChartsBySlideId;
    var torn := DestroyAllCharts(p.charts, env.brokenDestroy);
    DestroyAllPreservesWF(p.charts, env.brokenDestroy);
    InitializeAfterTeardown(torn, env, p.slides[p.currentIndex].id);
  }

  /** Every event keeps a consistent presentation consistent. */
  lemma HandleKeepsConsistent(p: Presentation, e: Event, env: Env)
    requires Consistent(p)
    ensures Consistent(Handle(p, e, env))
  {
    hide ShowSlide, NextSlide, PrevSlide, HandleKeyPress, HandleClick, HandleResize;
    ButtonMovesOnce(p, env);
    NextKeepsConsistent(p, env);
    PrevKeepsConsistent(p, env);
    ResizeKeepsConsistent(p, env);
  }

  /** Any sequence of events keeps a consistent presentation consistent. */
  lemma {:induction false} RunKeepsConsistent(p: Presentation, events: seq<Event>, env: Env)
    requires Consistent(p)
    ensures Consistent(Run(p, events, env))
    decreases |events|
  {
    hide DestroyAllCharts, InitializeChartsBySlideId;
    if |events| > 0 {
      HandleKeepsConsistent(p, events[0], env);
      RunKeepsConsistent(Handle(p, events[0], env), events[1..], env);
    }
  }

  /** The constructed presentation is consistent and shows slide 1. */
  lemma CreateConsistent(slides: seq<Slide>, env: Env)
    requires 0 < |slides|
    ensures Consistent(Create(slides, env).value)
  {
    hide DestroyAllCharts, InitializeChartsBySlideId;
    ShowSlideConsistent(Presentation(slides, 0, "", None, Empty()), 0, env);
  }

  /** From construction on, whatever keys, clicks, button presses and resizes
      arrive, the index stays within the slides, the current slide is the only
      active one, the counter reads its number over the slide count, and only
      its dispatch slots hold chart instances. */
  lemma NavigationStaysInBounds(slides: seq<Slide>, events: seq<Event>, env: Env)
    requires 0 < |slides|
    ensures var r := Run(Create(slides, env).value, events, env);
      && 0 <= r.currentIndex < |slides|
      && OnlyActive(r.slides, r.currentIndex)
      && ReadCounter(r.counter) == Some((r.currentIndex + 1, |slides|))
      && WF(r.charts)
      && (forall s :: r.charts.reg[s].Some? ==> s in Plan(slides[r.currentIndex].id).slots)
  {
    hide DestroyAllCharts, InitializeChartsBySlideId;
    var p := Create(slides, env).value;
    CreateConsistent(slides, env);
    RunKeepsConsistent(p, events, env);
    var r := Run(p, events, env);
    CounterTextReads(r.currentIndex + 1, |slides|);
  }

  /** Showing the current slide once more, as the page does right after
      construction, changes nothing visible: same slides, index and displays. */
  lemma RepeatedShowSlideIsHarmless(p: Presentation, env: Env)
    requires Consistent(p)
    ensures var q := ShowSlide(p, p.currentIndex, env);
      && Consistent(q)
      && q.slides == p.slides
      && q.currentIndex == p.currentIndex
      && q.counter == p.counter
      && q.progress == p.progress
  {
    hide DestroyAllCharts, InitializeChartsBySlideId;
    var q := ShowSlide(p, p.currentIndex, env);
    ShowSlideConsistent(p, p.currentIndex, env);
    assert p.(currentIndex := p.currentIndex) == p;
    forall j | 0 <= j < |p.slides| ensures q.slides[j] == p.slides[j] {
      assert q.slides[j].id == p.slides[j].id;
    }
  }

  /** Starting at the first of ten slides, three right-arrow presses reach the
      fourth slide with the progress bar at 40 percent; one left-arrow press
      then returns to the third. */
  lemma TenSlideWalk(slides: seq<Slide>, env: Env)
    requires |slides| == 10
    ensures var p := Create(slides, env).value;
            var three := Run(p, [KeyDown("ArrowRight"), KeyDown("ArrowRight"), KeyDown("ArrowRight")], env);
            var back := Run(three, [KeyDown("ArrowLeft")], env);
      && three.currentIndex == 3
      && three.progress.Some? && IsPercent(three.progress.value, 40)
      && back.currentIndex == 2
  {
    hide ShowSlide, NextSlide, PrevSlide, HandleClick, HandleResize, HandleKeyPress, Create, CounterText;
    var p := Create(slides, env).value;
    CreateConsistent(slides, env);
    var right := KeyDown("ArrowRight");
    var p1 := Handle(p, right, env);
    var p2 := Handle(p1, right, env);
    var p3 := Handle(p2, right, env);
    assert p1.currentIndex == 1 && p2.currentIndex == 2 && p3.currentIndex == 3;
    assert [right, right, right][1..] == [right, right];
    assert [right, right][1..] == [right];
    assert [right][1..] == [];
    assert Run(p2, [right], env) == p3;
    assert Run(p1, [right, right], env) == p3;
    assert Run(p, [right, right, right], env) == p3;
    HandleKeepsConsistent(p, right, env);
    HandleKeepsConsistent(p1, right, env);
    HandleKeepsConsistent(p2, right, env);
    assert Run(p3, [KeyDown("ArrowLeft")], env) == Handle(p3, KeyDown("ArrowLeft"), env);
  }
}
