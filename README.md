# Portfolio page effects: the rules behind them

The portfolio's script (`assets/js/enhanced-main.js`) is mostly DOM wiring
and style writes. Four small rules in it carry state or ordering that can
be stated exactly. This project models those four rules and proves what
they guarantee:

- **Konami-code easter egg** (`Konami`, konami.dfy). A keydown listener pushes
  each key code onto a buffer and drops the oldest code once the buffer holds
  more than ten. The egg fires when the buffer equals
  38, 38, 40, 40, 37, 39, 37, 39, 66, 65. The source compares the two arrays
  through `join(',')`. Key codes are numbers and contain no commas, so that
  comparison is equality of integer sequences. The listener is a class with the
  buffer as a `seq<int>` field. A ghost history of every code pressed ties the
  buffer to the last min(n, 10) presses.
- **Scroll spy and active nav link** (`ScrollSpy`, scroll_spy.dfy). On every
  scroll the page walks the `section[id]` elements in document order. It keeps
  the id of the last one with `pageYOffset >= offsetTop - 200`, or `''` when no
  section qualifies. Then every `.nav-link` loses `active` and regains it
  exactly when its href is `'#' + current`. A click on a link whose target
  section exists (`document.querySelector(href)` finds it) runs
  `updateActiveNavLink`, which clears every link and activates the clicked one.
  Sections are values (id, offsetTop). The links are a class holding their
  hrefs and an `array<bool>` of active flags. The walk over the sections is a
  method with a loop, proved against a recursive selection function.
- **Floating nav bar** (`FloatingNav`, floating_nav.dfy). The scroll handler's
  closure keeps one integer, `lastScrollTop`. The bar hides exactly when the new
  offset is greater than the last one and greater than 100. The new offset is
  stored in both branches. The offset read is `pageYOffset || scrollTop`, so a
  zero `pageYOffset` falls back to the document element's offset.
- **Stagger schedules** (`Stagger`, stagger.dfy). Children revealed one after
  another get timeout `index * step`, with a fixed step per group:
  - hero text: 200 ms (:79-84)
  - skill bars: 200 ms (:239-244)
  - code lines: 500 ms (:283-291)
  - achievement tags: 100 ms (:770-775)
  - experience duty lines: 150 ms (:822-827)

  The tech tags of an experience card go at `duties.length * 150 + index * 50`
  (:830-836).

Browser inputs become parameters: `pageYOffset`, section offsets, key codes and
link hrefs. A `setTimeout` call is represented by the delay it is given.

## Model

| member | source | states |
|---|---|---|
| Konami.Push | assets/js/enhanced-main.js:529-533 | one keydown appends the code and drops only the oldest code. A buffer of at most ten codes stays at most ten, and its newest code is the one just pressed |
| Konami.PushRecent | assets/js/enhanced-main.js:529-533 | pushing a code onto the last ten presses gives the last ten presses of the longer history |
| Konami.BufferIsRecentPresses | assets/js/enhanced-main.js:525-533 | after any run of keydowns, starting empty, the buffer is the last min(n, 10) codes in press order, and its length is min(n, 10) |
| Konami.RecentIsSequence | assets/js/enhanced-main.js:535 | the window of recent codes equals the secret sequence iff there were at least ten presses and the last ten are the sequence |
| Konami.TriggerIffRecentTen | assets/js/enhanced-main.js:526-537 | a keydown fires the egg iff the ten most recent codes are 38,38,40,40,37,39,37,39,66,65. Fewer than ten presses never fire it |
| Konami.OnlyLastIsB | assets/js/enhanced-main.js:526 | code 65 (B) occurs in the secret sequence only as its last code |
| Konami.FiringsTenApart | assets/js/enhanced-main.js:526-537 | two firings are at least ten keydowns apart, because the sequence does not overlap itself |
| Konami.KonamiListener.constructor | assets/js/enhanced-main.js:525 | the listener starts with an empty buffer and no presses |
| Konami.KonamiListener.KeyDown | assets/js/enhanced-main.js:528-538 | records the code. The new buffer is the old one with the code pushed and the oldest dropped past ten, and it stays the last min(n, 10) presses. The result is true iff the last ten presses are the secret sequence |
| ScrollSpy.LastReached | assets/js/enhanced-main.js:175-182 | the index of a reached section with no reached section after it, or -1 exactly when no section is reached |
| ScrollSpy.LastReachedUnique | assets/js/enhanced-main.js:175-182 | those properties determine the selected index uniquely |
| ScrollSpy.Current | assets/js/enhanced-main.js:173-182 | the chosen id is `''` when no section has `pageYOffset >= offsetTop - 200`. Otherwise it is the id of the last section in document order that has it |
| ScrollSpy.SelectCurrent | assets/js/enhanced-main.js:173-182 | the loop that reassigns `current` for each reached section ends with the id `Current` specifies |
| ScrollSpy.SpyActivatesAtMostOne | assets/js/enhanced-main.js:184-189 | with distinct hrefs at most one link is active after a scroll, and exactly one iff some href is `'#' + current` |
| ScrollSpy.NoneActive | assets/js/enhanced-main.js:184-189 | no link is active when no href is `'#' + current` |
| ScrollSpy.NavLinks.constructor | assets/js/enhanced-main.js:170 | the links keep their hrefs and the active flags they start with |
| ScrollSpy.NavLinks.MarkCurrent | assets/js/enhanced-main.js:184-189 | afterwards link i is active iff its href is `'#' + current`, and every other link is inactive |
| ScrollSpy.NavLinks.OnScroll | assets/js/enhanced-main.js:172-190 | after one scroll event link i is active iff its href is `'#'` followed by the id `Current` chooses from the sections and the offset. When no section is reached, only a link whose href is exactly `'#'` can be active |
| ScrollSpy.NavLinks.Activate | assets/js/enhanced-main.js:161-165 | the clicked link is active, every other link is inactive, and exactly one link is active |
| ScrollSpy.OneActive | assets/js/enhanced-main.js:161-165 | flags with exactly one set entry count one active link |
| ScrollSpy.NoFlags | assets/js/enhanced-main.js:163 | flags with no set entry count no active link |
| FloatingNav.Decisions | assets/js/enhanced-main.js:430-446 | over a run of scroll events, event i hides the bar iff its offset exceeds the previous event's offset (0 before the first event) and exceeds 100 |
| FloatingNav.LastDecision | assets/js/enhanced-main.js:435-445 | an event appended to a run is decided against the run's last offset, or against the initial 0 when the run is empty |
| FloatingNav.ShownUnlessScrollingDown | assets/js/enhanced-main.js:435-443 | an event within the first 100 pixels, or one that does not move further down than the previous event, shows the bar |
| FloatingNav.FloatingNavBar.constructor | assets/js/enhanced-main.js:429-430 | `lastScrollTop` starts at 0 and the bar is shown |
| FloatingNav.FloatingNavBar.OnScroll | assets/js/enhanced-main.js:432-446 | hidden iff the new offset exceeds the old `lastScrollTop` and 100. `lastScrollTop` becomes the new offset in both branches, and a zero `pageYOffset` falls back to the document's offset |
| Stagger.Schedule | assets/js/enhanced-main.js:770-775 | in every staggered group the first child goes at once and each later child goes exactly one step after its predecessor, so children go in strictly increasing document order at least one step apart |
| Stagger.ScheduleAt | assets/js/enhanced-main.js:239-244 | child i of a group goes at exactly `i * step` |
| Stagger.ThreeAchievementTags | assets/js/enhanced-main.js:770-775 | three achievement tags go at 0, 100 and 200 ms |
| Stagger.TechTagDelay | assets/js/enhanced-main.js:830-836 | every tech tag goes no earlier than `duties.length * 150` and strictly after every duty line of its card |
| Stagger.CardSchedule | assets/js/enhanced-main.js:820-836 | an experience card schedules one timeout per duty line and one per tech tag |
| Stagger.CardScheduleInOrder | assets/js/enhanced-main.js:820-836 | on an experience card every duty line and tech tag goes strictly after all those before it. The first tech tag goes one duty step after the last duty line |

## Left out

- DOM queries, `classList` writes and `style` strings. Their results are the model's inputs, and the class changes are its flags.
- `IntersectionObserver` visibility detection (:194-229, :749-866). These are browser APIs. The observers never call `unobserve` and keep no "already animated" flag. Each time an element crosses the threshold again, its reveal and staggered timeouts run again. So a reveal is not a one-time event in this code.
- Timers (`setTimeout`, `setInterval`, `requestAnimationFrame`, `debounce`, `throttle`, :504-520, :588-611). Only the delay values passed to them are modelled, not when the event loop runs the callbacks.
- The loading bar (:55-72), the particle system (:870-925) and floating-element durations (:666-672). They are driven by `Math.random()`.
- Mouse-trail easing (:108-116), parallax (:298-306, :945-953), 3D tilt (:407-418), counter stepping (:256-270) and the scroll-progress percentage (:495-499). These are floating-point numerics.
- CSS transform string concatenation (:677, :683, :700, :705, :952). This is presentation-string handling.
- Form submission (:342-365), the AOS library (:390-400, :581-583), skip-link creation (:614-653) and console/alert helpers (:967-1015). These are UI side effects or foreign calls.
- Offsets and key codes are integers. Fractional `pageYOffset` values on zoomed pages are not modelled. A missing `keyCode` (which `join` would render as an empty field) is not modelled either.
- The click handler's lookup of the target section (:136-147) is not modelled. When no element matches the href, the handler skips `updateActiveNavLink` and the flags stay as they were. An href that is not a valid selector, such as `'#'`, makes `querySelector` throw before the call. `Activate` models only the click whose target exists.
- ScrollSpy.NavLinks.Activate: the clicked link is identified by its index among the nav links. A link outside that list cannot be passed in, although `activeLink` is always one of them in the source.
- The floating bar's visible state before the first scroll event is taken as shown. The script sets no style there.
- The stagger delays of the portfolio items (:454-456) are in fractional seconds and are not modelled.
