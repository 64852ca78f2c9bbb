/** The project carousel of the WORK section: which card is left-most
    (`currentProject`), how many cards fit the viewport (`visibleItems`) and
    whether autoplay is suspended (`isPaused`). Every handler of the page is a
    pure transition over `State`. */
module Carousel {
  import opened Common
  import Viewport

  datatype Project = Project(title: string, year: string)

  /** The portfolio entries, in display order. */
  const Projects: seq<Project> := [
    Project("Show Match", "2025"),
    Project("Showreel", "2025"),
    Project("Botanica AI", "2024"),
    Project("Ess\U{EA}ncia", "2023"),
    Project("Lumi\U{E8}re", "2023"),
    Project("Terra", "2022"),
    Project("Vanguard", "2022")
  ]

  /** The carousel shows at most this many entries (`projects.slice(0, 7)`). */
  const DisplayLimit: nat := 7

  const DisplayProjects: seq<Project> :=
    Projects[..if |Projects| < DisplayLimit then |Projects| else DisplayLimit]

  /** `displayProjects.length`: the number of cards on the track. */
  const ItemCount: nat := |DisplayProjects|

  datatype State = State(current: int, visible: int, paused: bool)

  /** The state of the first render, before any effect has run. */
  const Initial: State := State(0, 1, false)

  /** The largest left-most index that still fills the viewport with cards:
      the window starting there ends exactly at the last card, and for any
      visible count the page can produce it is a real card index. */
  function MaxIndex(visible: int): (m: int)
    ensures m + visible == ItemCount
    ensures 1 <= visible <= ItemCount ==> 0 <= m < ItemCount
  {
    ItemCount - visible
  }

  /** What the page actually maintains: a card index that can be looked up
      and a visible count the resize handler can produce. */
  ghost predicate Inv(s: State) {
    && 0 <= s.current < ItemCount
    && 1 <= s.visible <= 3
  }

  /** The stronger property "the viewport is filled with cards", which the
      page does NOT maintain (see `ResizeLeavesWindow`). */
  ghost predicate InWindow(s: State) {
    0 <= s.current <= MaxIndex(s.visible)
  }

  /** `nextProject`: one card forward, wrapping to the first card once the
      last full window has been reached or passed. */
  function Next(prev: int, visible: int): (r: int)
    ensures 0 <= prev && 0 <= MaxIndex(visible) ==> 0 <= r <= MaxIndex(visible)
    ensures prev >= MaxIndex(visible) ==> r == 0
    ensures prev < MaxIndex(visible) ==> r == prev + 1
  {
    if prev >= MaxIndex(visible) then 0 else prev + 1
  }

  /** `prevProject`: one card back, wrapping from the first card to the last
      full window. There is no upper clamp: an index beyond the window only
      moves down by one. */
  function Prev(prev: int, visible: int): (r: int)
    ensures prev <= 0 ==> r == MaxIndex(visible)
    ensures 0 < prev ==> r == prev - 1
    ensures 0 <= prev <= MaxIndex(visible) ==> 0 <= r <= MaxIndex(visible)
    ensures 0 <= prev < ItemCount && 1 <= visible <= ItemCount ==> 0 <= r < ItemCount
  {
    if prev <= 0 then MaxIndex(visible) else prev - 1
  }

  /** Inside the window, `Next` and `Prev` undo each other. */
  lemma NextPrevInverse(cur: int, visible: int)
    requires 0 <= cur <= MaxIndex(visible)
    ensures Prev(Next(cur, visible), visible) == cur
    ensures Next(Prev(cur, visible), visible) == cur
  {
  }

  /** Outside the window `Prev` does not come back in one step unless the
      index was just one past the window, while `Next` always restarts at 0. */
  lemma OutOfWindowSteps(cur: int, visible: int)
    requires 0 <= MaxIndex(visible) < cur
    ensures Next(cur, visible) == 0
    ensures Prev(cur, visible) == cur - 1
    ensures cur > MaxIndex(visible) + 1 ==> Prev(cur, visible) > MaxIndex(visible)
  {
  }

  /** `n` consecutive `nextProject` calls. */
  function NextIter(cur: int, visible: int, n: nat): int {
    if n == 0 then cur else Next(NextIter(cur, visible, n - 1), visible)
  }

  /** Inside the window, `Next` is successor modulo the window size. */
  lemma {:induction false} NextIterIsModular(cur: int, visible: int, n: nat)
    requires 0 <= cur <= MaxIndex(visible)
    ensures NextIter(cur, visible, n) == (cur + n) % (MaxIndex(visible) + 1)
  {
    var m := MaxIndex(visible) + 1;
    if n == 0 {
      ModOfDecomposition(cur, m, 0, cur);
    } else {
      NextIterIsModular(cur, visible, n - 1);
      SuccMod(cur + n - 1, m);
    }
  }

  /** `maxIndex + 1` consecutive `nextProject` calls return to the start. */
  lemma NextFullCycle(cur: int, visible: int)
    requires 0 <= cur <= MaxIndex(visible)
    ensures NextIter(cur, visible, MaxIndex(visible) + 1) == cur
  {
    var m := MaxIndex(visible) + 1;
    NextIterIsModular(cur, visible, m);
    ModOfDecomposition(cur + m, m, 1, cur);
  }

  /** The resize handler: reclassify the visible count, keep everything else.
      In particular the index is NOT clamped into the new window. */
  function OnResize(s: State, width: int): (r: State)
    ensures r.visible == Viewport.VisibleItemsFor(width)
    ensures r.current == s.current && r.paused == s.paused
    ensures Inv(s) ==> Inv(r)
  {
    s.(visible := Viewport.VisibleItemsFor(width))
  }

  /** User input and timer events delivered to the carousel region. */
  datatype Input =
    | NextClick                            // the "Next Project" button
    | PrevClick                            // the "Previous Project" button
    | AutoplayTick                         // the 3000 ms interval fired
    | PointerEnter
    | PointerLeave
    | RegionFocus                          // focus on the region or the Previous/Next button
    | RegionBlur(focusStaysInside: bool)   // relatedTarget inside the region?
    | KeyDown(key: string)
    | CardFocus(index: int)                // focus landed inside card `index`

  /** Inputs the page can deliver: card indices come from the card list. */
  predicate ValidInput(e: Input) {
    e.CardFocus? ==> 0 <= e.index < ItemCount
  }

  /** One carousel handler. A card's focus event bubbles to the region, so
      focusing a card both selects it and pauses autoplay. */
  function Step(s: State, e: Input): (r: State)
    ensures r.visible == s.visible
    ensures Inv(s) && ValidInput(e) ==> Inv(r)
    ensures e.PointerEnter? || e.RegionFocus? || e.CardFocus? ==> r.paused
    ensures e.PointerLeave? ==> !r.paused
    ensures e.RegionBlur? ==> r.paused == (s.paused && e.focusStaysInside)
    ensures e.NextClick? || e.PrevClick? || e.AutoplayTick? || e.KeyDown? ==> r.paused == s.paused
    ensures e.PointerEnter? || e.PointerLeave? || e.RegionFocus? || e.RegionBlur? ==> r.current == s.current
    ensures e.NextClick? ==> r.current == Next(s.current, s.visible)
    ensures e.PrevClick? ==> r.current == Prev(s.current, s.visible)
    ensures e.AutoplayTick? && s.paused ==> r == s
    ensures e.AutoplayTick? && !s.paused ==> r.current == Next(s.current, s.visible)
    ensures e.KeyDown? && e.key == "ArrowLeft" ==> r.current == Prev(s.current, s.visible)
    ensures e.KeyDown? && e.key == "ArrowRight" ==> r.current == Next(s.current, s.visible)
    ensures e.KeyDown? && e.key != "ArrowLeft" && e.key != "ArrowRight" ==> r == s
    ensures e.CardFocus? ==> r.current == e.index
  {
    match e
    case NextClick => s.(current := Next(s.current, s.visible))
    case PrevClick => s.(current := Prev(s.current, s.visible))
    case AutoplayTick =>
      if s.paused then s else s.(current := Next(s.current, s.visible))
    case PointerEnter => s.(paused := true)
    case PointerLeave => s.(paused := false)
    case RegionFocus => s.(paused := true)
    case RegionBlur(inside) => if inside then s else s.(paused := false)
    case KeyDown(key) =>
      if key == "ArrowLeft" then s.(current := Prev(s.current, s.visible))
      else if key == "ArrowRight" then s.(current := Next(s.current, s.visible))
      else s
    case CardFocus(i) => s.(current := i, paused := true)
  }

  /** A sequence of carousel inputs, in delivery order. */
  function Run(s: State, inputs: seq<Input>): State
    decreases |inputs|
  {
    if |inputs| == 0 then s else Run(Step(s, inputs[0]), inputs[1..])
  }

  /** While paused, any number of autoplay ticks leaves the carousel alone. */
  lemma {:induction false} PausedTicksIdle(s: State, inputs: seq<Input>)
    requires s.paused
    requires forall j :: 0 <= j < |inputs| ==> inputs[j] == AutoplayTick
    ensures Run(s, inputs) == s
    decreases |inputs|
  {
    if |inputs| > 0 {
      PausedTicksIdle(Step(s, inputs[0]), inputs[1..]);
    }
  }

  /** After the pointer leaves, the next tick advances exactly one card. */
  lemma ResumeThenTick(s: State)
    ensures Run(s, [PointerLeave, AutoplayTick])
            == s.(paused := false, current := Next(s.current, s.visible))
  {
    assert [PointerLeave, AutoplayTick][1..] == [AutoplayTick];
  }

  /** Navigation, pausing and keyboard input keep a filled viewport filled. */
  lemma WindowPreservedByInput(s: State, e: Input)
    requires Inv(s) && InWindow(s) && !e.CardFocus?
    ensures InWindow(Step(s, e))
  {
  }

  /** A resize that does not widen the window keeps a filled viewport filled. */
  lemma WindowPreservedByNarrowing(s: State, width: int)
    requires Inv(s) && InWindow(s)
    requires Viewport.VisibleItemsFor(width) <= s.visible
    ensures InWindow(OnResize(s, width))
  {
  }

  /** The page does not clamp: a phone showing the last card, rotated or
      resized to desktop width, leaves the left-most index past the last full
      window, and one step back does not repair it. */
  lemma ResizeLeavesWindow()
    ensures var s := OnResize(State(6, 1, false), 1280);
            Inv(s) && !InWindow(s) && !InWindow(Step(s, PrevClick))
  {
  }

  /** Focusing the last card on a desktop leaves the window the same way. */
  lemma CardFocusLeavesWindow()
    ensures var s := Step(State(0, 3, false), CardFocus(6));
            Inv(s) && !InWindow(s)
  {
  }

  /** `displayProjects[currentProject]?.title`: undefined off the track. */
  function AnnouncedTitle(current: int): (t: Option<string>)
    ensures t.Some? <==> 0 <= current < ItemCount
  {
    if 0 <= current < ItemCount then Some(DisplayProjects[current].title) else None
  }

  /** Under the maintained invariant the live-region announcement always names
      a real project, at a 1-based position between 1 and the card count. */
  lemma AnnouncementDefined(s: State)
    requires Inv(s)
    ensures AnnouncedTitle(s.current) == Some(DisplayProjects[s.current].title)
    ensures 1 <= s.current + 1 <= ItemCount
  {
  }
}
