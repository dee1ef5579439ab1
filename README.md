# Localized landing site: locale router, translation lookup and scroll animations

A Dafny model of the logic behind a small English/Spanish marketing site
built with Astro. It covers three parts.

- **Locale router** (`src/middleware.ts`). Every request passes through it.
  It takes the first segment of the path. When that segment is missing, or
  is neither a language code nor contains a ".", the request is redirected
  to `/en/` or `/es/`. The language comes from the `Accept-Language` header.
  Any other request passes through, and a language prefix is recorded.
- **Translation lookup** (`src/utils/i18n.ts`). `t(translations, key)`
  follows a dotted key through a JSON tree. When it finds no truthy value it
  returns the key. `getTranslations` falls back to the English resource when
  a locale has none.
- **Scroll animations** (`src/scripts/animations.ts`). This part has four
  pieces:
  - a reveal observer that animates elements as they scroll into view;
  - a number counter that reads "99+" as 99 with suffix "+", picks a
    duration from the number, and eases up to it frame by frame;
  - staggered delays for the items of a container;
  - a scroll throttle that runs at most one parallax update per animation
    frame.

Modules: `Wrappers` (Option), `Strings` (the JavaScript `split`,
`includes` and `toLowerCase` the router and `t` use), `Decimal` (digits
and `String(n)`/`parseInt`), `Middleware`, `I18n`, `Counter` (the pure
part of the counter) and `Animations` (the observers, as classes over DOM
elements whose fields they update).

Behaviour the proofs bring out:

- The `pathname === "/"` test in the router adds nothing. The first
  segment of "/" is the empty string, which already triggers the redirect
  (`Middleware.RedirectIff`).
- A redirect always goes to a language's home page with status 302. The
  original path is dropped.
- A request for a file is exempt only when the first segment holds a ".".
  A file below another directory, such as `/images/logo.png`, is
  redirected (`Middleware.NestedPathRedirects`).
- `pickLang` looks for "es" before "en". A header that prefers English but
  accepts Spanish therefore selects Spanish
  (`Middleware.PickLangIgnoresPreferenceOrder`).
- A negative `data-counter-duration` makes a counter never stop from the
  start on: every frame stamped at or after the start shows 0 or below
  (`Counter.NegativeDurationNeverCompletes`).
- A zero duration ends on the first frame that is not stamped before the
  start. A frame stamped before it shows "-Infinity", or "NaN" when the
  target is 0.
- With a positive duration and a positive target, a frame whose timestamp
  precedes the `performance.now()` taken at the start shows a negative
  number (`Counter.FrameBeforeStartShowsNegative`).
- An element listed twice as intersecting in one batch of observer entries
  is animated twice. "Once" holds across batches, because the element is
  unobserved.

## Model

| member | source | states |
|---|---|---|
| Strings.Split | src/middleware.ts:17 | `split` yields at least one part, and no part contains the separator |
| Strings.JoinSplit | src/utils/i18n.ts:15 | joining the parts of `key.split('.')` with "." gives back the key |
| Strings.SplitJoin | src/utils/i18n.ts:15 | splitting a join of parts without separators gives back the parts |
| Strings.SplitAtFirst | src/middleware.ts:17 | the part before the first separator is the first part, and the rest splits on its own |
| Strings.IncludesIff | src/middleware.ts:10 | `includes` holds exactly when the substring occurs at some index |
| Strings.Lower | src/middleware.ts:9 | lowercasing keeps the length |
| Strings.LowerIdempotent | src/middleware.ts:9 | lowercasing twice is lowercasing once |
| Decimal.Show | src/scripts/animations.ts:95-100 | `String(n)` writes canonical decimal digits, with no leading zero unless n is 0 |
| Decimal.ValueShow | src/scripts/animations.ts:113 | `parseInt` of `String(n)` is n |
| Decimal.ShowValue | src/utils/i18n.ts:15 | canonical digits, read as a number and written back by `String`, are unchanged |
| Middleware.FromCode | src/middleware.ts:3-5 | a segment is accepted exactly when it is a code in `SUPPORTED`, and then it names that language |
| Middleware.PickLang | src/middleware.ts:7-13 | a missing, null or empty header selects English; which language any other header selects is stated by `PickLangSpanishIff` |
| Middleware.PickLangSpanishIff | src/middleware.ts:7-13 | Spanish is chosen exactly when the lowercased header contains "es", and English otherwise |
| Middleware.PickLangCaseInsensitive | src/middleware.ts:9 | the header's case does not change the language |
| Middleware.PickLangIgnoresPreferenceOrder | src/middleware.ts:10-11 | "en-US,en;q=0.9,es;q=0.8" selects Spanish, because "es" is looked for first |
| Middleware.FirstSegment | src/middleware.ts:17 | the first segment contains no "/", and a pathname without "/" has none |
| Middleware.FirstSegmentOf | src/middleware.ts:17 | the first segment of "/seg" or "/seg/..." is seg |
| Middleware.FirstSegmentOfRoot | src/middleware.ts:17 | the first segment of "/" is the empty string |
| Middleware.CodeHasNoDot | src/middleware.ts:20 | no language code counts as a file name |
| Middleware.OnRequest | src/middleware.ts:15-32 | a redirect is always a 302 to the home page of the header's language; a request let through with a language has that language's code as its first segment, and one let through without a language has a first segment containing "." |
| Middleware.RedirectIff | src/middleware.ts:17-24 | a request is redirected exactly when its first segment is missing, or is neither a code nor contains "." |
| Middleware.RootRedirects | src/middleware.ts:21-23 | "/" always redirects to the home page of the header's language |
| Middleware.LocalePathPassesThrough | src/middleware.ts:26-31 | a path under a language passes through with that language recorded |
| Middleware.FilePathPassesThrough | src/middleware.ts:20-31 | a path whose first segment contains "." passes through, with no language recorded |
| Middleware.NestedPathRedirects | src/middleware.ts:17-23 | below a directory that is neither a language nor holds ".", every path, a file included, redirects to a home page |
| Middleware.NoRedirectLoop | src/middleware.ts:21-28 | the redirect target passes through, with the chosen language recorded, whatever header the next request carries |
| I18n.ArrayIndex | src/utils/i18n.ts:15 | a property name denotes an array index exactly when it is canonical digits, which are `String` of the index |
| I18n.Get | src/utils/i18n.ts:15 | a property of null, a boolean or a number is undefined; an object has exactly its own keys; arrays and strings have a numeric `length`, and an array's other properties are its items |
| I18n.Step | src/utils/i18n.ts:15 | `obj?.[k]` of undefined or null is undefined |
| I18n.Walk | src/utils/i18n.ts:15 | a walk that starts undefined stays undefined to the end |
| I18n.WalkAppend | src/utils/i18n.ts:15 | reducing over a concatenation reduces over the first part, then the second |
| I18n.T | src/utils/i18n.ts:14-16 | `t` returns the key, or a truthy value the walk reached |
| I18n.TFollowsSegments | src/utils/i18n.ts:14-16 | a dotted key whose segments lead to a truthy value yields that value |
| I18n.TMissingSegment | src/utils/i18n.ts:15 | a segment missing at any depth makes `t` return the key |
| I18n.TFalsyGivesKey | src/utils/i18n.ts:15 | a falsy value at the end of the walk, "" or 0 for example, gives the key |
| I18n.TUndefinedTranslations | src/utils/i18n.ts:15 | undefined translations give back the key |
| I18n.TSingleSegment | src/utils/i18n.ts:14-16 | a key without "." looks up one top-level entry |
| I18n.WalkDescends | src/utils/i18n.ts:15 | each "." descends one level into the object tree |
| I18n.GetTranslations | src/utils/i18n.ts:3-12 | a resource is found exactly when the locale's file or the English file exists, and the locale's own file comes first; otherwise the promise rejects |
| I18n.GetTranslationsFallback | src/utils/i18n.ts:3-12 | a locale without its own file gets exactly what the English locale gets |
| Counter.DigitRun | src/scripts/animations.ts:110 | the leading digit run is all digits and ends at a non-digit or at the end |
| Counter.Match | src/scripts/animations.ts:110 | a match splits the text into a non-empty run of digits and a rest without line terminators |
| Counter.MatchIsGreedyRegexMatch | src/scripts/animations.ts:110 | the match succeeds exactly when `^(\d+)(.*)$` can match, and its digit group is the longest possible |
| Counter.ParseNumber | src/scripts/animations.ts:108-118 | the suffix starts with no digit and has no line terminator; a positive value needs a leading digit |
| Counter.ParseDigitsThenSuffix | src/scripts/animations.ts:108-118 | digits followed by a suffix that starts with a non-digit and holds no line terminator parse to the digits' value and that suffix |
| Counter.ParseShow | src/scripts/animations.ts:108-118 | for a suffix that starts with a non-digit and holds no line terminator, parsing `String(n) + suffix` gives back n and the suffix |
| Counter.ParseNumberStable | src/scripts/animations.ts:108-118 | writing out what was parsed and parsing again gives the same result |
| Counter.ParseNoLeadingDigit | src/scripts/animations.ts:110-117 | text that does not start with a digit parses to 0 with an empty suffix |
| Counter.ParseNumberExamples | src/scripts/animations.ts:107-118 | "99+" is 99 with suffix "+"; "10" is 10; "7" followed by a newline is 0 |
| Counter.DurationCap | src/scripts/animations.ts:138-144 | the cap lies between 600 and 2000 ms |
| Counter.BaseDuration | src/scripts/animations.ts:137 | an absent or empty attribute gives 2000 ms, any other its value |
| Counter.CounterDuration | src/scripts/animations.ts:137-144 | the duration is the attribute's value or the cap, and at most both, so it is the smaller of the two; never over 2000, at most 600 for numbers up to 5 and 800 up to 20 |
| Counter.DefaultDurations | src/scripts/animations.ts:137-144 | without the attribute the cap decides: 3 takes 600 ms, 15 takes 800, 30 takes 1500, 100 takes 2000 |
| Counter.DurationMonotone | src/scripts/animations.ts:138-144 | a larger number never animates faster |
| Counter.EaseOutQuart | src/scripts/animations.ts:92 | the easing never exceeds 1 |
| Counter.Progress | src/scripts/animations.ts:89 | the progress never exceeds 1 |
| Counter.EasedValue | src/scripts/animations.ts:92-100 | the value a frame shows at any progress is at most the target |
| Counter.ShownValue | src/scripts/animations.ts:88-93 | no frame shows more than the target |
| Counter.EaseOutQuartBounds | src/scripts/animations.ts:92 | the easing never exceeds 1 and reaches it only at progress 1; it lies in [0, 1] on [0, 1] and is negative before 0 |
| Counter.EaseOutQuartMonotone | src/scripts/animations.ts:92 | the easing never decreases up to progress 1 |
| Counter.ProgressBounds | src/scripts/animations.ts:88-89 | with a positive duration, progress never exceeds 1 and grows with time; it reaches 1 exactly when the duration has elapsed and is negative before the start |
| Counter.CounterFrame | src/scripts/animations.ts:87-102 | a frame that ends the animation leaves the target and the suffix |
| Counter.ShownValueBounds | src/scripts/animations.ts:88-93 | with a positive duration, a frame from the start on shows a value between 0 and the target |
| Counter.ShownValueMonotone | src/scripts/animations.ts:88-93 | with a positive duration, the shown value never decreases as time goes on |
| Counter.EasedValueMonotone | src/scripts/animations.ts:92-100 | the shown value never decreases as the progress grows up to 1 |
| Counter.CounterFrameCompletes | src/scripts/animations.ts:87-102 | with a positive duration, the animation stops exactly once the duration has elapsed; the last frame shows the target and suffix, and no earlier frame shows a positive target |
| Counter.FrameBeforeStartShowsNegative | src/scripts/animations.ts:85-97 | with a positive duration and a positive target, a frame stamped before the start shows a negative number and asks for another frame |
| Counter.ZeroDurationFrames | src/scripts/animations.ts:87-102 | with a zero duration, the first frame stamped at or after the start ends the animation with the target |
| Counter.NegativeDurationNeverCompletes | src/scripts/animations.ts:87-99 | with a negative duration, every frame from the start on asks for another and shows at most 0 |
| Counter.FinalTextReparses | src/scripts/animations.ts:100-128 | the text the last frame leaves parses back to what the original text parsed to |
| Animations.MergeOptions | src/scripts/animations.ts:14-20 | field by field: a given value wins, a field left out keeps its default, and a field set to undefined is undefined |
| Animations.MergeOptionsOverrides | src/scripts/animations.ts:14-20 | options given in full replace the defaults, options left out keep them, `{ once }` alone keeps the other two defaults, and an explicit undefined clears one |
| Animations.AnimationKind | src/scripts/animations.ts:35 | the kind is the element's non-empty `data-animate`, or "fadeIn" |
| Animations.ScrollAnimations.constructor | src/scripts/animations.ts:14-29 | the observer starts with the merged options, observing nothing |
| Animations.ScrollAnimations.HandleIntersection | src/scripts/animations.ts:31-44 | each intersecting entry's element is animated with its kind, in order; with `once` exactly the intersecting elements are unobserved, and without it the observed set is unchanged |
| Animations.ScrollAnimations.Observe | src/scripts/animations.ts:62-64 | adds the element to the observed set and changes nothing else |
| Animations.ScrollAnimations.ObserveAll | src/scripts/animations.ts:66-70 | adds every matched element to the observed set |
| Animations.ScrollAnimations.Disconnect | src/scripts/animations.ts:72-74 | nothing stays observed |
| Animations.CounterFiresIff | src/scripts/animations.ts:125-130 | a counter fires exactly when its whole text matches with a number other than 0; it must start with a digit |
| Animations.Fired | src/scripts/animations.ts:125-130 | only intersecting elements fire |
| Animations.StartFor | src/scripts/animations.ts:128-147 | `animateCounter` receives the parsed number and suffix, and the counter duration of that number: at most 2000 ms, the attribute's value and the number's cap |
| Animations.StartsFired | src/scripts/animations.ts:125-150 | every element whose counter starts is one the callback unobserves |
| Animations.NoCounterStartsTwice | src/scripts/animations.ts:147-150 | while no started element is observed, a batch about observed elements starts no element a second time |
| Animations.CounterObserver.constructor | src/scripts/animations.ts:161-164 | every `[data-counter]` element is observed, no counter has started, and the invariant that no started element is observed holds |
| Animations.CounterObserver.HandleEntries | src/scripts/animations.ts:123-153 | the firing elements start their counters in entry order and are unobserved; each keeps its first non-empty original text; nothing else changes; no started element stays observed |
| Animations.CounterObserver.HandleEntry | src/scripts/animations.ts:125-151 | one entry: it fires, stores its text unless one is stored, starts the counter and is unobserved; or nothing happens |
| Animations.CounterAnimation.constructor | src/scripts/animations.ts:78-105 | the animation starts running with its target, duration, suffix and start time |
| Animations.CounterAnimation.Tick | src/scripts/animations.ts:87-102 | a frame leaves the frame's text and keeps running exactly when the frame asks for another |
| Animations.StaggerDelay | src/scripts/animations.ts:215 | the delay is a multiple of 100 ms, and the hundreds count the index |
| Animations.DelayTextParses | src/scripts/animations.ts:215-217 | the delay text `${delay}ms` parses back to the delay, with "ms" as its suffix |
| Animations.StaggerDelayProperties | src/scripts/animations.ts:213-217 | later items wait longer, and no two indices share a delay text |
| Animations.ItemsContain | src/scripts/animations.ts:211-213 | every container's items are among the stagger items |
| Animations.FinalIndexKeys | src/scripts/animations.ts:211-217 | every stagger item gets a delay |
| Animations.FinalIndexOfUnique | src/scripts/animations.ts:211-217 | an item with one index only ends up with that index |
| Animations.StaggerItemsMembers | src/scripts/animations.ts:211-213 | an item is paired with i exactly when it sits at index i of some container |
| Animations.StaggerIndexOfItem | src/scripts/animations.ts:211-219 | numbering restarts in each container: an item that always sits at index i gets the delay of i |
| Animations.ApplyStagger | src/scripts/animations.ts:209-219 | every item's two delays show its final index, and every item is observed |
| Animations.StaggerContainer | src/scripts/animations.ts:212-218 | one container's items get the delays of their indices and are observed; the delays set earlier stay unless overwritten |
| Animations.StaggerChild | src/scripts/animations.ts:214-218 | one item gets both delays of its index and is observed; the delays set earlier stay unless this item overwrites its own |
| Animations.SetDelay | src/scripts/animations.ts:214-216 | both delay styles read `${index*100}ms` |
| Animations.InitScrollAnimations | src/scripts/animations.ts:199-219 | a fresh observer with threshold 0.1, margin "0px 0px -100px 0px" and `once` watches every `[data-animate]` element and every stagger item, whose delays are set |
| Animations.RunKeepsThrottleValid | src/scripts/animations.ts:185-194 | whatever the events, a frame callback is pending exactly while `ticking`, and never more than one |
| Animations.ScrollBurstSchedulesOnce | src/scripts/animations.ts:186-194 | any burst of scroll events before a frame schedules one callback and no update |
| Animations.UpdatesBounded | src/scripts/animations.ts:185-194 | parallax updates never outnumber the rendered frames, nor the scroll events plus the pending callback |
| Animations.OnScroll | src/scripts/animations.ts:186-194 | a scroll never updates, and from a valid state leaves `ticking` set with one callback pending |
| Animations.OnFrame | src/scripts/animations.ts:188-191 | the frame callback updates once, and from a valid state clears `ticking` with nothing pending |
| Animations.Run | src/scripts/animations.ts:185-194 | updates are never undone along a run of events |
| Animations.RunSnoc | src/scripts/animations.ts:185-194 | a run extended by one event is that event applied after the run, so the controller's calls one at a time follow `Run` |
| Animations.Parallax.constructor | src/scripts/animations.ts:185 | the throttle starts idle |
| Animations.Parallax.OnScrollEvent | src/scripts/animations.ts:186-194 | the scroll listener requests a frame only when none is pending, and keeps the throttle invariant |
| Animations.Parallax.OnAnimationFrame | src/scripts/animations.ts:188-191 | the frame callback updates once and clears `ticking`, and keeps the throttle invariant |

## Left out

- Strings.Lower: lowercases ASCII letters only. `pickLang` only looks for "e", "s" and "n", and no non-ASCII character lowercases to one of them, so the language chosen is the same.
- URL parsing (`new URL(...)`) is not modelled: the router takes `url.pathname` as the URL parser leaves it, percent-encoded, so `/a%2Eb` has the first segment `a%2Eb`, which holds no ".".
- Astro's `context.redirect`, `next()` and `locals` are not modelled as calls: the `Response` datatype says which one the router uses, and with which values.
- The framework's i18n routing options in `astro.config.mjs` are configuration read by Astro itself. They are not part of this model.
- `getTranslations` loads `../i18n/<locale>.json` with a dynamic import. The model takes the available files as a map from locale to parsed JSON. Its unused `Astro` argument is dropped.
- I18n.Get: property access covers an object's own members, the indices and `length` of arrays and strings, and nothing else. Inherited members such as `toString` or `constructor` are not modelled, and a string is indexed by character, not by UTF-16 code unit.
- Counter.ParseNumber: the value is the exact integer. `parseInt` rounds digit strings beyond 2^53, and `String` writes numbers of 10^21 and up in exponent notation; neither is modelled.
- Counter.BaseDuration: `data-counter-duration` is taken as an integer or absent. A value that `parseInt` reads as NaN is not modelled.
- Counter: the easing and the progress use exact real arithmetic, not IEEE doubles.
- `animateElement` is recorded as the `Animation` it is called with. Its class changes, its `data-animate` attribute, its `requestAnimationFrame` and its 10 ms timeout are not modelled.
- The IntersectionObserver is reduced to the set of elements it watches and the batches of entries it delivers. The geometry that `threshold` and `rootMargin` control is browser behaviour. The reveal observer keeps those options as values only; the counter observer's `{ threshold: 0.5, rootMargin: '0px' }` (`src/scripts/animations.ts:155-158`) are dropped, since `CounterObserver` holds no options.
- Animations.CounterAnimation.constructor: the default parameters of `animateCounter` (`duration = 2000`, `suffix = ''`) are not modelled; the only call passes all four arguments.
- `initCounterAnimations` records each `animateCounter` call as a `CounterStart`. Its frames are modelled by `CounterAnimation`, one per animation; the scheduling of frames by `requestAnimationFrame` is left to the caller of `Tick`.
- `updateParallax` computes `translateY(scrollY * speed px)` from `parseFloat` and the page offset. This floating-point layout work is not modelled; the throttle counts how often it runs.
- `document.querySelectorAll` is replaced by the sequences of elements it would return, and the module's `DOMContentLoaded` bootstrap (`src/scripts/animations.ts:231-240`) is DOM wiring that is left out.
