# Slide navigation and chart lifecycle of the TCM pitch-deck page

This project models the core of `main.js`, the script behind a single-page
slide presentation. The page's state is a list of slide elements, each with
an id and an "active" flag. A `Presentation` object holds the current index,
a slide counter ("3 / 10") and a progress bar. The page also keeps a global
registry of twenty chart slots; each slot holds a live Chart.js instance or
nothing. Showing a slide destroys every chart, marks that slide as the only
active one, and updates the counter and the progress bar. It then runs the
chart initializers for that slide id. The keyboard, click, resize and
navigation-button handlers move between slides without wrapping.

The model is written in plain functional Dafny:

- `Wrappers`: the `Option` type.
- `Decimal`: how a template literal prints a natural number (`Show`), how such text is read back (`Parse`), and the round trip between them.
- `Registry`: the twenty slots in the order of the registry literal.
  - Chart instances are numbered handles, allocated from a counter.
  - The `Charts` record logs every `destroy()` call, every caught `destroy()` error and every fallback placeholder drawn.
  - It provides `destroyAllCharts` as a loop over the keys in order, and the generic "destroy the old instance, then create or fall back" step each initializer performs.
  - `WF` is the ownership invariant. Every live handle was created, is held by one slot only and was never destroyed. `destroy()` is called at most once per handle. Every created handle is either live or destroyed, so none has leaked.
- `Dispatch`: the `initializeChartsBySlideId` switch, reduced to the ordered list of registry slots each slide id initializes and the style of initializer that handles them.
- `Navigation`: the `Presentation` state and its transitions (`showSlide`, `nextSlide`, `prevSlide`, the key, click and resize handlers, the two buttons, the constructor), plus a `Run` over any sequence of events.

The page's surroundings are a parameter, `Env`. It says which element ids exist in the markup, whether the chart library is loaded, which slots' chart construction throws, and which instances throw from `destroy()`.

Three initializer styles appear in the source, and `Registry.Kind` models all three:

- A standalone `init*` function (e.g. `initMarketAnalysis`) destroys the old instance. If `Chart` is undefined, it draws the placeholder and returns. The early return also skips the function's later charts, and the model keeps this.
- An inline switch branch (e.g. `market-part15`) destroys the old instance and falls back without returning.
- The `tcm-revival` branch assigns a new instance without destroying the old one.

Two edge cases of the code:

- Every initializer except the `tcm-revival` branch destroys the previous instance before storing a new one (`Registry.InitTwiceDestroysFirst`). The `tcm-revival` branch (main.js:1967-2031) assigns without destroying. The page never runs that branch twice without a teardown in between. `Dispatch.TcmRevivalTwiceLeaks` shows what happens if it does: the first instance leaks.
- The constructor, given no slides at all, throws inside `showSlide(0)` (main.js:1886, 1940). `Navigation.Create` returns `None` in that case.

## Model

| member | source | states |
|---|---|---|
| Registry.Empty | main.js:5-26 | The registry as loaded: every slot empty, nothing created, ownership invariant holds |
| Registry.AllSlotsEnumerates | main.js:5-26 | The key order lists each of the twenty slots exactly once |
| Registry.DestroyOne | main.js:1864-1871 | One key: the slot is cleared; `destroy()` is logged for its instance, if any; a throwing `destroy()` is logged as an error and the slot is cleared anyway |
| Registry.DestroyKeys | main.js:1862-1873 | Visiting distinct keys clears exactly those slots and leaves the others untouched. The destroy log gains the visited handles in key order; the error log gains the throwing ones. Nothing is created |
| Registry.DestroyAllCharts | main.js:1862-1873 | Afterwards every slot is empty. Nothing is created and no fallback is drawn |
| Registry.DestroyKeysDestroysEachOnce | main.js:1862-1873 | Over distinct keys, `destroy()` is called exactly once on each handle those keys held and on nothing else |
| Registry.DestroyAllDestroysEachOnce | main.js:1862-1873 | Destroying all charts calls `destroy()` exactly once on each previously live handle and on nothing else |
| Registry.DestroyAllLogsThrowingDestroys | main.js:1865-1870 | A slot is logged as an error exactly when its instance's `destroy()` throws; every slot ends empty regardless |
| Registry.ThrowingInElems | main.js:1865-1870 | The error list contains exactly the visited slots whose instance throws from `destroy()` |
| Registry.LiveInElems | main.js:1862-1873 | The handles listed during the loop are exactly the handles held by the visited keys |
| Registry.LiveInNoDup | main.js:1862-1873 | Distinct slots holding distinct handles give a destroy sequence without repeats |
| Registry.DestroyKeysLogIsFresh | main.js:1862-1873 | After the loop, the destroy log has no repeats and names only created handles |
| Registry.DestroyKeysPreservesWF | main.js:1862-1873 | Visiting every key keeps the ownership invariant |
| Registry.DestroyAllPreservesWF | main.js:1862-1873 | `destroyAllCharts` keeps the ownership invariant |
| Registry.InitChart | main.js:108-400 | One initializer step, in the three styles of `initOrganChart`/`updateMarketCharts` (main.js:108-400), the `market-part15` branch (main.js:2046-2097) and the `tcm-revival` branch (main.js:1967-2031). With no mount element, nothing happens. Otherwise the old instance is destroyed, except in the unguarded kind. Then a new instance is stored, or the placeholder is drawn. A standalone initializer stops when the library is missing. No other slot changes, and no `destroy()` error is logged |
| Registry.InitChartPreservesWF | main.js:108-189 | An initializer step keeps the ownership invariant, unless it is the unguarded kind on an occupied slot |
| Registry.Group | main.js:214-400 | A multi-chart initializer. Only its slots change, and any instance it leaves in a changed slot is newly created. The instance counter never decreases, and the destroy log only grows |
| Registry.GroupPreservesWF | main.js:214-400 | A run of initializer steps keeps the ownership invariant; for the unguarded kind, this needs distinct, empty slots |
| Registry.GroupDestroysNothing | main.js:214-400 | Over distinct, empty slots, an initializer run never calls `destroy()` |
| Registry.InitTwiceDestroysFirst | main.js:108-124 | A destroying initializer run twice on a mounted slot with a working library destroys the first instance. Only the second instance stays live, and the invariant holds. Covers a first instance whose `destroy()` works |
| Registry.UnguardedOverwriteLeaks | main.js:1967-2031 | The unguarded branch on an occupied slot overwrites the handle without calling `destroy()`. The old instance is neither live nor destroyed, so the invariant fails |
| Dispatch.Plan | main.js:1955-2529 | Each slide id's initializer list has no repeated slot; the unguarded kind is chosen exactly for `tcm-revival`, whose list is its single slot |
| Dispatch.InitializeChartsBySlideId | main.js:1955-2529 | Only the slide's entry slots can change. Instances left in changed slots are new. The destroy log only grows, and no `destroy()` error is logged |
| Dispatch.GroupFillsMounted | main.js:1955-2529 | With the library loaded, over distinct empty slots: a slot ends with an instance exactly when its mount exists and its construction does not throw |
| Dispatch.GroupWithoutLibrary | main.js:225-228 | Without the library, initializers over empty slots store nothing and create nothing |
| Dispatch.InitializeAfterTeardown | main.js:1929-1952 | On an emptied registry, a slide's initializers: keep the invariant; call no `destroy()`; fill only the slide's slots, and with the library exactly the mounted, working ones; without the library, leave every slot empty |
| Dispatch.TcmRevivalTwiceLeaks | main.js:1967-2031 | Dispatching `tcm-revival` twice without a teardown in between drops the first instance without destroying it |
| Decimal.Show | main.js:1946 | The printed number is a non-empty digit string with no leading zero |
| Decimal.ParseShow | main.js:1946 | Reading back the printed number gives the number |
| Decimal.ShowInjective | main.js:1946 | Different numbers print differently |
| Navigation.SpaceAt | main.js:1946 | Finds the first space: no space before the position, and a space at it when it is inside the text |
| Navigation.CounterTextReads | main.js:1946 | The counter text "i / n" reads back as the pair (i, n) |
| Navigation.Progress | main.js:1944-1945 | The bar width is (index+1)/total of 100 percent: positive, at most 100, and exactly 100 only on the last slide |
| Navigation.ShowSlide | main.js:1929-1953 | Slide `index` becomes the only active slide; the slide ids and the current index stay. The counter reads (index+1, total) and the progress is set. The destroy log only grows, and only the slide's dispatch slots hold instances |
| Navigation.ShowSlideCharts | main.js:1929-1953 | Showing a slide keeps the invariant and calls `destroy()` exactly once per previously live handle. With the library loaded, exactly the slide's mounted, working slots hold instances |
| Navigation.ShowSlideConsistent | main.js:1929-1953 | Moving to a slide and showing it gives a presentation whose active slide, counter, progress and charts all describe that slide |
| Navigation.NextSlide | main.js:2532-2537 | Before the last slide: advances the index by one and is exactly `ShowSlide` of the new index (teardown, displays, that slide's charts). On the last slide: changes nothing. Never leaves the slide range |
| Navigation.PrevSlide | main.js:2539-2544 | After the first slide: moves the index back by one and is exactly `ShowSlide` of the new index (teardown, displays, that slide's charts). On the first slide: changes nothing. Never leaves the slide range |
| Navigation.HandleKeyPress | main.js:2546-2552 | Right arrow or space advances; left arrow goes back; every other key leaves the state unchanged. Gives the resulting index |
| Navigation.HandleClick | main.js:2554-2561 | A click advances exactly when its target lies outside the controls, the buttons and the slide content; otherwise nothing changes |
| Navigation.HandleResize | main.js:2563-2575 | Slides, index, counter and progress stay. If the index names a slide, the registry ends exactly as showing that slide would leave it (teardown, then that slide's initializers), so only its dispatch slots hold instances; otherwise nothing changes |
| Navigation.ResizeRebuilds | main.js:2563-2575 | A resize calls `destroy()` exactly once on each previously live handle, keeps the ownership invariant, and with the library loaded leaves instances in exactly the current slide's mounted, working slots |
| Navigation.Handle | main.js:1889-1893 | Any event keeps the index in range and the slide ids unchanged |
| Navigation.Run | main.js:1889-1893 | Any sequence of events keeps the index in range and the slide ids unchanged |
| Navigation.Create | main.js:1877-1887 | The constructor yields a presentation exactly when there is at least one slide. It starts at index 0 with the same slides |
| Navigation.CreateConsistent | main.js:1877-1887 | The constructed presentation shows slide 1 consistently |
| Navigation.ButtonMovesOnce | main.js:1912-1922 | A navigation-button press moves exactly one slide. The click that bubbles to the document lands inside the controls and does not advance again |
| Navigation.NextKeepsConsistent | main.js:2532-2537 | Advancing keeps a consistent presentation consistent |
| Navigation.PrevKeepsConsistent | main.js:2539-2544 | Going back keeps a consistent presentation consistent |
| Navigation.ResizeKeepsConsistent | main.js:2563-2575 | Rebuilding the current slide's charts keeps a consistent presentation consistent |
| Navigation.HandleKeepsConsistent | main.js:2546-2575 | Every event keeps a consistent presentation consistent |
| Navigation.RunKeepsConsistent | main.js:2532-2575 | Every sequence of events keeps a consistent presentation consistent |
| Navigation.NavigationStaysInBounds | main.js:2532-2575 | From construction on, under any events: the index stays within the slides and its slide is the only active one. The counter reads its number over the slide count. The registry keeps its invariant, with instances only in that slide's slots |
| Navigation.RepeatedShowSlideIsHarmless | main.js:2579-2584 | Showing the current slide again, as the page does right after construction, leaves the slides, index, counter and progress unchanged and the state consistent |
| Navigation.TenSlideWalk | main.js:2532-2552 | On ten slides, three right-arrow presses reach the fourth slide with the bar at 40 percent; one left-arrow press returns to the third |

## Left out

- Chart configurations (types, labels, data, colours, options): they only affect drawing. A chart instance is an opaque numbered handle.
- `initRing3D` (Three.js), `taijiAnimation` and the other GSAP animations, `initDetailPages` and `initFeatureAnimations`: they do not touch the chart registry or the navigation state.
- The drawing done by `createFallbackChart`. The model only logs which slot got a placeholder.
- The DOM itself: `querySelectorAll`, `classList`, `style.display`, element creation in `createControls`, and listener registration. Slides are a sequence of (id, active) records. Events are a datatype fed to `Navigation.Handle`.
- `Navigation.Progress`: floating-point division and the CSS string `${progress}%` are not modelled; the width is the exact fraction (index+1)·100 / total.
- `console.error` output. A caught `destroy()` error is logged as its slot in `errors`; a caught construction error shows as the fallback it triggers.
- `Registry.InitChart`: a `destroy()` that throws inside an initializer (e.g. main.js:114, outside any `try`) is not modelled. In the source that exception escapes the initializer, the slot keeps its old handle and nothing new is created. On the page's own paths it cannot occur, because every dispatch follows `destroyAllCharts` and `Registry.GroupDestroysNothing` shows that no `destroy()` is then called.
- `Registry.InitTwiceDestroysFirst`: runs an initializer twice without a teardown, where a throwing `destroy()` of the first instance would matter. It therefore requires that the first instance's `destroy()` does not throw, and says nothing about the throwing case.
- `Navigation.ShowSlide`: an index outside the slides is excluded by its precondition, because the source then throws on `this.slides[index]`. The constructor's only such call, on an empty slide list, is modelled by `Navigation.Create` returning `None`.
- `Navigation.NextSlide` and `Navigation.PrevSlide` require the index to name a slide and every registry key to be present. The constructor establishes both, and every transition keeps them (`Navigation.Run`).
- Slide ids without chart initializers (`background`, `background-additional`, `market-part3`, the `product-features` ids and the default case) dispatch to an empty list. What they do besides charts is left out, as above.
- The page's second `showSlide(0)` after construction is not a separate operation. `Navigation.RepeatedShowSlideIsHarmless` states its effect.
