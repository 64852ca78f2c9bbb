/** The page as a whole: the carousel, the navigation state and the title
    word, driven by one stream of events. A resize reaches two independent
    listeners (`isMobile` and `visibleItems`); every other event reaches one
    machine only. */
module Page {
  import Viewport
  import Carousel
  import Sections
  import TitleWords

  datatype Page = Page(carousel: Carousel.State, nav: Sections.Nav, title: TitleWords.Title)

  datatype Event =
    | Resize(width: int)
    | CarouselInput(input: Carousel.Input)
    | ObserverBatch(entries: seq<Sections.Entry>)
    | WordTick
    | FastPhaseOver

  /** The first render, before any effect has run. */
  const Initial: Page := Page(Carousel.Initial, Sections.Initial, TitleWords.Initial)

  /** After the mount effects: both resize listeners have been called once
      with the current width. */
  function Mount(width: int): (p: Page)
    ensures p.carousel.current == 0 && !p.carousel.paused
    ensures p.carousel.visible == Viewport.VisibleItemsFor(width)
    ensures p.nav.active == Sections.Home
    ensures p.nav.mobile <==> Viewport.IsMobile(width)
    ensures p.title == TitleWords.Initial
  {
    Page(Carousel.OnResize(Initial.carousel, width),
         Sections.OnResize(Initial.nav, width),
         Initial.title)
  }

  ghost predicate ValidEvent(e: Event) {
    e.CarouselInput? ==> Carousel.ValidInput(e.input)
  }

  /** What holds between events once the page is mounted: the carousel index
      can be looked up, the word index can be looked up, and the two resize
      listeners agree. */
  ghost predicate Inv(p: Page) {
    && Carousel.Inv(p.carousel)
    && TitleWords.Inv(p.title)
    && (p.nav.mobile <==> p.carousel.visible == 1)
  }

  /** Dispatch one event to the listeners that receive it. */
  function Step(p: Page, e: Event): (r: Page)
    ensures Inv(p) && ValidEvent(e) ==> Inv(r)
    ensures !e.Resize? && !e.CarouselInput? ==> r.carousel == p.carousel
    ensures !e.Resize? && !e.ObserverBatch? ==> r.nav == p.nav
    ensures !e.WordTick? && !e.FastPhaseOver? ==> r.title == p.title
    ensures !p.title.fastPhase ==> !r.title.fastPhase
    ensures e.Resize? ==> && r.carousel.visible == Viewport.VisibleItemsFor(e.width)
                          && r.carousel.current == p.carousel.current
                          && r.carousel.paused == p.carousel.paused
                          && (r.nav.mobile <==> Viewport.IsMobile(e.width))
                          && r.nav.active == p.nav.active
    ensures e.CarouselInput? ==> r.carousel == Carousel.Step(p.carousel, e.input)
    ensures e.ObserverBatch? ==> r.nav.active == Sections.LastIntersecting(e.entries).GetOr(p.nav.active)
    ensures e.WordTick? && TitleWords.Inv(p.title) ==>
              r.title.wordIndex == (p.title.wordIndex + 1) % |TitleWords.AnimatedWords|
    ensures e.FastPhaseOver? ==> !r.title.fastPhase && r.title.wordIndex == p.title.wordIndex
    ensures e.WordTick? ==> r.title.fastPhase == p.title.fastPhase
    ensures e.ObserverBatch? ==> r.nav.mobile == p.nav.mobile
  {
    match e
    case Resize(w) =>
      p.(carousel := Carousel.OnResize(p.carousel, w), nav := Sections.OnResize(p.nav, w))
    case CarouselInput(input) => p.(carousel := Carousel.Step(p.carousel, input))
    case ObserverBatch(entries) => p.(nav := Sections.OnBatch(p.nav, entries))
    case WordTick => p.(title := TitleWords.Tick(p.title))
    case FastPhaseOver => p.(title := TitleWords.EndFastPhase(p.title))
  }

  function Run(p: Page, events: seq<Event>): Page
    decreases |events|
  {
    if |events| == 0 then p else Run(Step(p, events[0]), events[1..])
  }

  /** The mounted page satisfies the invariant; the first render does not
      (it shows one card with `isMobile` still false). */
  lemma MountEstablishesInv(width: int)
    ensures Inv(Mount(width))
    ensures !Inv(Initial)
  {
    assert Viewport.IsMobile(width) <==> Viewport.VisibleItemsFor(width) == 1;
  }

  /** Every event sequence the page can receive keeps the invariant. */
  lemma {:induction false} RunPreservesInv(p: Page, events: seq<Event>)
    requires Inv(p)
    requires forall j :: 0 <= j < |events| ==> ValidEvent(events[j])
    ensures Inv(Run(p, events))
    decreases |events|
  {
    if |events| > 0 {
      RunPreservesInv(Step(p, events[0]), events[1..]);
    }
  }

  /** Whatever happens after mounting, the carousel announcement names a real
      project and the title shows one of its words. */
  lemma LookupsAlwaysDefined(width: int, events: seq<Event>)
    requires forall j :: 0 <= j < |events| ==> ValidEvent(events[j])
    ensures var p := Run(Mount(width), events);
            && Carousel.AnnouncedTitle(p.carousel.current).Some?
            && 0 <= p.title.wordIndex < |TitleWords.AnimatedWords|
  {
    MountEstablishesInv(width);
    RunPreservesInv(Mount(width), events);
  }

  /** Once the fast phase is over it never comes back. */
  lemma {:induction false} SlowPhaseIsFinal(p: Page, events: seq<Event>)
    requires !p.title.fastPhase
    ensures !Run(p, events).title.fastPhase
    decreases |events|
  {
    if |events| > 0 {
      SlowPhaseIsFinal(Step(p, events[0]), events[1..]);
    }
  }

  /** The nav is only ever hidden while the carousel shows a single card. */
  lemma HiddenNavMeansSingleCard(p: Page)
    requires Inv(p)
    requires Sections.NavOpacity(p.nav) == 0
    ensures p.nav.active == Sections.Home && p.carousel.visible == 1
  {
  }
}
