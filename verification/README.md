# Portfolio page state machines in Dafny

This project models the client-side state of a single-page portfolio site
(`src/App.jsx`) as pure transition functions over immutable records, and
proves range, wrap-around, inverse and "nothing else changes" properties of
them. Five pieces of state are modelled:

- **Carousel** (`carousel.dfy`): the left-most card `currentProject`, the
  number of cards that fit (`visibleItems`, 1 to 3) and `isPaused`, over the
  fixed list of seven projects. `nextProject` and `prevProject` wrap against
  `maxIndex = 7 - visibleItems`. Handlers cover the autoplay tick, the two
  buttons, pointer enter and leave, focus and blur of the region, the arrow
  keys, focus landing inside a card, and the resize listener.
- **Viewport classification** (`viewport.dfy`): width 1024 and up gives three
  cards, 768 and up gives two, anything narrower one card and `isMobile`.
- **Active-section tracker and navigation** (`sections.dfy`): an
  IntersectionObserver batch overwrites `activeSection` with every
  intersecting entry in order. The nav bar and the menu button fade out
  exactly on `home` on a mobile viewport, and exactly one nav link is
  highlighted.
- **Title word** (`title_words.dfy`): `wordIndex` cycles modulo the four
  animated words. A one-shot timeout switches the fast phase to the slow one.
- **Decrypted heading text** (`decrypt.dfy`): frame `k` shows the real
  character at every position `i` with `3i < k` and an alphabet character
  elsewhere. With the counter taken as the exact fraction `k/3`, the
  interval disarms itself after drawing frame `3 * |text|`, which is the
  text itself. In the browser the floating-point counter can lag by one frame,
  or for texts of 12 or more characters run one frame ahead (see
  `Decrypt.Step` and `Decrypt.Frame` under "Left out").

`page.dfy` composes the carousel, the nav state and the title word under
one event stream. One resize reaches both resize listeners. Every other
event reaches only its own machine. From mount on, the page keeps the
invariant "carousel index in `[0, 6]`, word index in `[0, 3]`, `isMobile`
exactly when one card is shown".

## Behaviour as written

- The resize handler (src/App.jsx:163-172) sets `visibleItems` only; it does
  not clamp `currentProject` into the new window. Focusing a late card
  (src/App.jsx:467) sets the index directly too. One might
  expect "the index never exceeds `7 - visibleItems`". The code does not keep
  that property (`Carousel.ResizeLeavesWindow`, `Carousel.CardFocusLeavesWindow`),
  and this model follows the code. What the code does keep is the weaker
  bound `0 <= currentProject <= 6`. This bound is enough for the
  announcement lookup `displayProjects[currentProject]` to be defined.
- React's `onFocus` bubbles. Focus landing on a control inside card `i`
  therefore runs the card's handler (select card `i`) and then the
  region's handler (pause). `Carousel.CardFocus` does both.
- `isMobile` starts `false` and `visibleItems` starts at 1. The two are
  consistent only after the mount effects have run (`Page.MountEstablishesInv`).
- The pointer leaving the region resumes autoplay even when keyboard focus
  is still inside it.

## Model

| member | source | states |
|---|---|---|
| `Viewport.VisibleItemsFor` | src/App.jsx:163-172 | the card count is always 1, 2 or 3: 3 exactly for width >= 1024, 2 exactly for 768 <= width < 1024, 1 exactly below 768 |
| `Viewport.IsMobile` | src/App.jsx:91 | `isMobile` holds exactly for the widths at which the carousel classification gives one card |
| `Viewport.VisibleItemsMonotonic` | src/App.jsx:164-168 | a wider viewport never shows fewer cards |
| `Carousel.MaxIndex` | src/App.jsx:175 | the last full window starting at `maxIndex` ends exactly at the last card, and for 1 to 7 visible cards `maxIndex` is a real card index |
| `Carousel.Next` | src/App.jsx:174-177 | from any index >= 0 the result lies in `[0, maxIndex]`; it wraps to 0 from `maxIndex` or beyond and otherwise moves one card forward |
| `Carousel.Prev` | src/App.jsx:179-182 | wraps from 0 (or below) to `maxIndex`, otherwise moves back one card with no upper clamp; it maps `[0, maxIndex]` into itself and `[0, 6]` into itself |
| `Carousel.NextPrevInverse` | src/App.jsx:174-182 | on `[0, maxIndex]` next and prev undo each other in both orders |
| `Carousel.OutOfWindowSteps` | src/App.jsx:174-182 | beyond `maxIndex`, next restarts at 0 while prev only decrements, so an index two or more past the window is still outside after one prev |
| `Carousel.NextIterIsModular` | src/App.jsx:174-177 | n consecutive nexts from an index in the window land on `(index + n) mod (maxIndex + 1)` |
| `Carousel.NextFullCycle` | src/App.jsx:174-177 | `maxIndex + 1` consecutive nexts return to the starting index |
| `Carousel.OnResize` | src/App.jsx:163-172 | a resize sets the visible count from the width and leaves the index and the pause flag unchanged; it keeps the index within `[0, 6]` |
| `Carousel.Step` | src/App.jsx:421-467 | the Next button is next and the Previous button is prev (lines 434-454); pointer enter, focus and card focus pause; pointer leave resumes; blur resumes only when focus leaves the region; a paused tick changes nothing, an unpaused tick is next; ArrowLeft is prev, ArrowRight is next, other keys change nothing; card focus selects that card; no input changes the visible count; the index stays within `[0, 6]` |
| `Carousel.PausedTicksIdle` | src/App.jsx:184-191 | any number of autoplay ticks while paused leaves the whole carousel state unchanged |
| `Carousel.ResumeThenTick` | src/App.jsx:184-191 | after the pointer leaves, the next tick advances exactly one card |
| `Carousel.WindowPreservedByInput` | src/App.jsx:174-191 | from a filled window, every input other than card focus keeps the index within `[0, maxIndex]` |
| `Carousel.WindowPreservedByNarrowing` | src/App.jsx:163-172 | a resize that does not increase the visible count keeps a filled window filled |
| `Carousel.ResizeLeavesWindow` | src/App.jsx:163-182 | index 6 on a phone, resized to desktop, ends past `maxIndex = 4`, and one prev leaves it still past the window |
| `Carousel.CardFocusLeavesWindow` | src/App.jsx:462-467 | focusing card 6 with three cards visible puts the index past `maxIndex` |
| `Carousel.AnnouncedTitle` | src/App.jsx:509-511 | the optional-chained title lookup is defined exactly for indices in `[0, 6]` |
| `Carousel.AnnouncementDefined` | src/App.jsx:509-511 | under the page invariant the announcement names the project at the current index, at a position between 1 and 7 |
| `Sections.ApplyBatch` | src/App.jsx:216-226 | after a batch the active section is either unchanged or the target of some intersecting entry |
| `Sections.LastIntersecting` | src/App.jsx:218-224 | reference reading: none exactly when no entry intersects, otherwise the target of an intersecting entry after which none intersects |
| `Sections.BatchIsLastIntersecting` | src/App.jsx:218-224 | the in-order overwrite equals the last intersecting entry's target, and a batch without one leaves the section unchanged |
| `Sections.LastReportedWins` | src/App.jsx:218-224 | of two sections reported together the one reported last becomes active, regardless of document order; non-intersecting entries are ignored |
| `Sections.NavOpacity` | src/App.jsx:283-285 | the nav (and the menu button, line 305) is transparent exactly when the active section is home on a mobile viewport, opaque otherwise |
| `Sections.Highlighted` | src/App.jsx:295 | a nav link is drawn highlighted only when its section is the active one (also the mobile menu, line 329) |
| `Sections.ExactlyOneLinkHighlighted` | src/App.jsx:291-299 | exactly one of the four nav links is highlighted |
| `Sections.OnResize` | src/App.jsx:90-95 | the resize listener sets `isMobile` from the width and leaves the active section alone |
| `Sections.OnBatch` | src/App.jsx:216-226 | after a batch the active section is the target of the last intersecting entry, or unchanged when none intersects; `isMobile` is left alone |
| `TitleWords.Tick` | src/App.jsx:70-72 | the word index stays in `[0, 4)`, wraps to 0 exactly from the last word, and the phase is untouched |
| `TitleWords.EndFastPhase` | src/App.jsx:83-88 | the timeout ends the fast phase and keeps the current word |
| `TitleWords.CurrentWord` | src/App.jsx:372 | the displayed word is one of the animated words |
| `TitleWords.TicksAdvanceModulo` | src/App.jsx:67-81 | n interval callbacks move the word index n places modulo 4 and leave the phase alone |
| `TitleWords.FullCycleReturns` | src/App.jsx:67-81 | four callbacks return the title to its starting word |
| `Decrypt.RandomChar` | src/App.jsx:21-33 | a random draw in `[0, 1)` always selects a character of the alphabet |
| `Decrypt.Frame` | src/App.jsx:26-36 | frame k has the text's length, shows `text[i]` wherever `3i < k` and an alphabet character everywhere else |
| `Decrypt.FrameAtEndIsText` | src/App.jsx:29-38 | once the counter has reached the length, the frame is exactly the text, whatever the random draws |
| `Decrypt.Step` | src/App.jsx:25-43 | a running interval draws frame `k`: the text's length, `text[i]` wherever `3i < k`, an alphabet character elsewhere; it stays armed exactly while `k` is below three times the length; a disarmed one changes nothing |
| `Decrypt.RunningUntilEnd` | src/App.jsx:38-42 | before frame `3 * length` the interval stays armed and counts one frame per firing |
| `Decrypt.RevealCompletes` | src/App.jsx:23-46 | from any running state, the remaining firings end with the text shown in the clear and the interval disarmed |
| `Decrypt.StoppedIsFinal` | src/App.jsx:38-40 | once disarmed, no further firing changes anything, so the exact text is the last frame |
| `Decrypt.WholeReveal` | src/App.jsx:23-46 | from the effect's start, `3 * length + 1` firings reveal the text exactly and disarm the interval |
| `Page.Mount` | src/App.jsx:52-172 | after the mount effects the carousel is at card 0, unpaused, with the width's card count, home is active, and `isMobile` follows the width |
| `Page.Step` | src/App.jsx:67-467 | a resize sets both the card count and `isMobile` from the width and keeps index, pause flag and active section; a carousel input is the carousel handler; a batch makes the last intersecting target active; a word tick steps the word modulo 4; the timeout ends the fast phase; a word tick keeps the phase and a batch keeps `isMobile`; every other part is unchanged, the invariant is kept, and the slow phase is never left |
| `Page.MountEstablishesInv` | src/App.jsx:52-100 | the mounted page satisfies the invariant; the first render (mobile flag false, one card) does not |
| `Page.RunPreservesInv` | src/App.jsx:67-182 | every sequence of valid events keeps the carousel index in `[0, 6]`, the word index in `[0, 3]` and `isMobile` in step with the card count |
| `Page.LookupsAlwaysDefined` | src/App.jsx:509-511 | after mounting and any events, the announced project and the title word are both defined lookups |
| `Page.SlowPhaseIsFinal` | src/App.jsx:83-88 | once the fast phase is over, no event brings it back |
| `Page.HiddenNavMeansSingleCard` | src/App.jsx:283-285 | a hidden nav implies the home section is active and the carousel shows one card |

## Left out

- Markup, Tailwind classes, static copy, links, icons and the
  `RevealOnScroll` helper: presentation only.
- framer-motion: spring transitions, `whileInView` reveals and the
  `useScroll`/`useTransform` interpolations (src/App.jsx:193-205). These are
  floating-point animation inside an external library.
- The percent track offset and widths (src/App.jsx:458-466): floating-point
  rendering arithmetic.
- Wall-clock time. The periods (3000 ms autoplay, 80 ms and 1000 ms word
  ticks, the 3000 ms phase timeout, the 30 ms decrypt interval) are left out.
  So is the arming, re-arming and cleanup of effects. Ticks and the timeout
  are abstract events instead. In particular, no tick is delivered to a
  paused carousel, because its interval is not armed.
- IntersectionObserver internals: the 0.5 threshold geometry and the
  `observe`/`unobserve` registration (src/App.jsx:225-231) are browser
  services. Batches of `(section, isIntersecting)` are inputs.
- `scrollToSection` and the mobile menu (src/App.jsx:207-214, 308-336): they
  drive DOM scrolling and an overlay. Their write to `activeSection` is the
  same overwrite as one intersecting observer entry.
- `Math.random` is an oracle: each frame receives one value in `[0, 1)` per
  position.
- Decrypt.Step: the counter `iteration += 1/3` is modelled as the exact
  fraction `k/3`, so the stop test `iteration >= text.length` (src/App.jsx:38)
  is `k >= 3 * |text|`. The browser sums in IEEE doubles, which can lag.
  For the ABOUT heading (src/App.jsx:537), 15 additions give
  4.999999999999999, so the interval draws one more frame (frame 16) before
  it clears. That frame also shows the full text. For WORK, 12 additions give
  exactly 4.0, so the model's frame count is right.
- Decrypt.RevealCompletes: the count of `3 * |text| + 1` firings holds for the
  exact counter. With the floating-point counter it can be one more, as for
  ABOUT. The displayed text at the end is the same.
- Decrypt.WholeReveal: same frame-count caveat as `Decrypt.RevealCompletes`.
- Decrypt.Frame: with the exact counter, position `m` first shows its real
  character in frame `3m + 1`. The IEEE sum of 1/3 overshoots the integer at
  frames 33, 36, ..., 54 (33 additions give 11.000000000000002), so for a
  text of 12 or more characters the positions 11 to 18 (up to the text's
  end) appear one frame earlier, in frame `3m`; `Decrypt.Step`'s revealed
  prefix is one position short on those frames. Where the sum falls short of
  the integer the test `index < iteration` is unaffected. The page's
  headings, WORK and ABOUT (4 and 5 characters), are unaffected.
- Decrypt.Frame: the source splits and measures `text` in UTF-16 code units
  (`split("")`, `text.length`), while a Dafny string counts Unicode scalar
  values. The two agree for ASCII text, which covers the page's only
  headings, WORK and ABOUT (src/App.jsx:411, 537). Text outside the Basic
  Multilingual Plane is not modelled.
- The `DecryptedText` effect restarting when its `text` prop changes
  (src/App.jsx:45-46): each heading's text is constant.
- Project fields other than title and year (media URLs, colour classes):
  presentation only.
- `tailwind.config.js` (static theme) and `components/QuantumScene.tsx`
  (a component that renders nothing).
