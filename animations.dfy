/** The scroll-driven animations of the page: the reveal observer
    (`ScrollAnimations`), the counter observer and its per-frame counter
    animation, the stagger delays and the parallax scroll throttle. Browser
    primitives are replaced by explicit state: an observer is its set of
    observed elements, a scheduled animation frame is a flag or a count of
    pending callbacks, and the browser's calls into the page are methods. */
module Animations {
  import opened Wrappers
  import opened Decimal
  import opened Counter

  /** The parts of a DOM element the animations read or write. */
  class Element {
    var textContent: string
    /** `data-animate` */
    var animate: Option<string>
    /** `data-counter-duration`, read as an integer (`None`: absent or empty) */
    var counterDuration: Option<int>
    /** `data-original-text` */
    var originalText: Option<string>
    var transitionDelay: string
    var animationDelay: string
  }

  /** An `IntersectionObserverEntry`: its target and whether it intersects. */
  datatype Entry = Entry(target: Element, isIntersecting: bool)

  /** The elements of a sequence, as a set. */
  function Elements(items: seq<Element>): set<Element> {
    set e | e in items
  }

  /** The elements of one more item of a sequence. */
  lemma ElementsOfSnoc(items: seq<Element>, i: nat)
    requires i < |items|
    ensures Elements(items[..i + 1]) == Elements(items[..i]) + {items[i]}
  {
    assert items[..i + 1] == items[..i] + [items[i]];
  }

  /** The elements the entries are about. */
  function Targets(entries: seq<Entry>): set<Element> {
    set i | 0 <= i < |entries| :: entries[i].target
  }

  /** A prefix of the entries is about some of their targets. */
  lemma TargetsOfPrefix(entries: seq<Entry>, n: nat)
    requires n <= |entries|
    ensures Targets(entries[..n]) <= Targets(entries)
  {
    forall e | e in Targets(entries[..n]) ensures e in Targets(entries) {
      var i :| 0 <= i < n && entries[..n][i].target == e;
      assert entries[i].target == e;
    }
  }

  /** The targets of the intersecting entries. */
  function IntersectingTargets(entries: seq<Entry>): (s: set<Element>)
    ensures s <= Targets(entries)
  {
    set i | 0 <= i < |entries| && entries[i].isIntersecting :: entries[i].target
  }

  /** One more entry adds its target when it intersects. */
  lemma IntersectingStep(entries: seq<Entry>, i: nat)
    requires i < |entries|
    ensures IntersectingTargets(entries[..i + 1])
         == IntersectingTargets(entries[..i]) + if entries[i].isIntersecting then {entries[i].target} else {}
  {
    var p := entries[..i + 1];
    assert forall j :: 0 <= j < i ==> p[j] == entries[..i][j];
    assert p[i] == entries[i];
  }

  // ----- ScrollAnimations -----

  /** A field of the options a caller passes: left out, set to `undefined`,
      or given a value. */
  datatype Setting<T> = Unset | Undefined | Given(value: T)

  /** `AnimationOptions` as a caller passes it. */
  datatype AnimationOptions =
    AnimationOptions(threshold: Setting<real>, rootMargin: Setting<string>, once: Setting<bool>)

  /** The merged options; `None` is `undefined`. */
  datatype Options = Options(threshold: Option<real>, rootMargin: Option<string>, once: Option<bool>)

  /** The defaults of the `ScrollAnimations` constructor. */
  const DefaultOptions: Options := Options(Some(0.1), Some("0px 0px -50px 0px"), Some(true))

  /** One field of `{ ...defaults, ...options }`. */
  function Override<T>(default: Option<T>, given: Setting<T>): Option<T> {
    match given
    case Unset => default
    case Undefined => None
    case Given(v) => Some(v)
  }

  /** `{ threshold: 0.1, rootMargin: '0px 0px -50px 0px', once: true, ...options }`:
      field by field, a given value wins, a field left out keeps its default
      and a field set to `undefined` is `undefined`. */
  function MergeOptions(given: AnimationOptions): (o: Options)
    ensures given.threshold.Given? ==> o.threshold == Some(given.threshold.value)
    ensures given.threshold.Unset? ==> o.threshold == DefaultOptions.threshold
    ensures given.threshold.Undefined? ==> o.threshold.None?
    ensures given.rootMargin.Given? ==> o.rootMargin == Some(given.rootMargin.value)
    ensures given.rootMargin.Unset? ==> o.rootMargin == DefaultOptions.rootMargin
    ensures given.rootMargin.Undefined? ==> o.rootMargin.None?
    ensures given.once.Given? ==> o.once == Some(given.once.value)
    ensures given.once.Unset? ==> o.once == DefaultOptions.once
    ensures given.once.Undefined? ==> o.once.None?
  {
    Options(Override(DefaultOptions.threshold, given.threshold),
            Override(DefaultOptions.rootMargin, given.rootMargin),
            Override(DefaultOptions.once, given.once))
  }

  /** Every field is merged on its own: options given in full replace the
      defaults, options left out keep them, and a partial object such as
      `{ once: false }` keeps the other two defaults. */
  lemma MergeOptionsOverrides(threshold: real, rootMargin: string, once: bool)
    ensures MergeOptions(AnimationOptions(Given(threshold), Given(rootMargin), Given(once)))
         == Options(Some(threshold), Some(rootMargin), Some(once))
    ensures MergeOptions(AnimationOptions(Unset, Unset, Unset)) == DefaultOptions
    ensures MergeOptions(AnimationOptions(Unset, Unset, Given(once)))
         == Options(Some(0.1), Some("0px 0px -50px 0px"), Some(once))
    ensures MergeOptions(AnimationOptions(Unset, Unset, Undefined)).once == None
  {
  }

  /** `element.dataset.animate || 'fadeIn'`. */
  function AnimationKind(animate: Option<string>): (kind: string)
    ensures kind != ""
    ensures animate.Some? && animate.value != "" ==> kind == animate.value
    ensures animate.None? || animate.value == "" ==> kind == "fadeIn"
  {
    if animate.Some? && animate.value != "" then animate.value else "fadeIn"
  }

  /** A call of `animateElement(element, kind)`. */
  datatype Animation = Animation(element: Element, kind: string)

  /** The `animateElement` calls `handleIntersection` makes for `entries`. */
  function AnimationsFor(entries: seq<Entry>): seq<Animation>
    reads Targets(entries)`animate
  {
    if entries == [] then []
    else
      var last := entries[|entries| - 1];
      TargetsOfPrefix(entries, |entries| - 1);
      AnimationsFor(entries[..|entries| - 1])
        + if last.isIntersecting then [Animation(last.target, AnimationKind(last.target.animate))] else []
  }

  /** The reveal observer. `observed` is what its IntersectionObserver
      watches; `animated` records the `animateElement` calls, in order. */
  class ScrollAnimations {
    var options: Options
    var observed: set<Element>
    var animated: seq<Animation>

    /** `once` is truthy. */
    predicate Once()
      reads this
    {
      options.once == Some(true)
    }

    constructor(given: AnimationOptions)
      ensures options == MergeOptions(given)
      ensures observed == {} && animated == []
    {
      options := MergeOptions(given);
      observed := {};
      animated := [];
    }

    /** `handleIntersection`: every intersecting entry's element is animated
        with its kind, and with `once` it is unobserved. */
    method HandleIntersection(entries: seq<Entry>)
      modifies this
      ensures options == old(options)
      ensures animated == old(animated) + old(AnimationsFor(entries))
      ensures observed == if Once() then old(observed) - IntersectingTargets(entries) else old(observed)
    {
      var i := 0;
      while i < |entries|
        invariant 0 <= i <= |entries|
        invariant options == old(options)
        invariant animated == old(animated) + old(AnimationsFor(entries[..i]))
        invariant observed == if Once() then old(observed) - IntersectingTargets(entries[..i]) else old(observed)
      {
        var entry := entries[i];
        assert entries[..i + 1][..i] == entries[..i];
        IntersectingStep(entries, i);
        if entry.isIntersecting {
          var element := entry.target;
          animated := animated + [Animation(element, AnimationKind(element.animate))];
          if options.once == Some(true) {
            observed := observed - {element};
          }
        }
        i := i + 1;
      }
      assert entries[..i] == entries;
    }

    /** `observe`. */
    method Observe(element: Element)
      modifies this
      ensures observed == old(observed) + {element}
      ensures options == old(options) && animated == old(animated)
    {
      observed := observed + {element};
    }

    /** `observeAll`, with the elements the selector matches. */
    method ObserveAll(elements: seq<Element>)
      modifies this
      ensures observed == old(observed) + Elements(elements)
      ensures options == old(options) && animated == old(animated)
    {
      var i := 0;
      while i < |elements|
        invariant 0 <= i <= |elements|
        invariant observed == old(observed) + Elements(elements[..i])
        invariant options == old(options) && animated == old(animated)
      {
        Observe(elements[i]);
        ElementsOfSnoc(elements, i);
        i := i + 1;
      }
      assert elements[..i] == elements;
    }

    /** `disconnect`: nothing is observed any more. */
    method Disconnect()
      modifies this
      ensures observed == {}
      ensures options == old(options) && animated == old(animated)
    {
      observed := {};
    }
  }

  // ----- counters -----

  /** Whether the counter callback animates an intersecting element whose
      text is `text`. */
  predicate CounterFires(text: string) {
    ParseNumber(text).value > 0
  }

  /** A counter fires exactly when its text starts with a number other than
      0 that the whole text matches; text without a leading digit never fires. */
  lemma CounterFiresIff(text: string)
    ensures CounterFires(text) <==> Match(text).Some? && Value(Match(text).value.0) > 0
    ensures CounterFires(text) ==> |text| > 0 && IsDigit(text[0])
  {
  }

  /** `!element.dataset.originalText`. */
  predicate NotStored(originalText: Option<string>) {
    originalText.None? || originalText.value == ""
  }

  /** A call of `animateCounter(element, target, duration, suffix)`. */
  datatype CounterStart = CounterStart(element: Element, target: nat, duration: int, suffix: string)

  /** The counter callback animates the entry's element. */
  predicate Fires(entry: Entry)
    reads entry.target`textContent
  {
    entry.isIntersecting && CounterFires(entry.target.textContent)
  }

  /** The elements that the counter callback animates. */
  function Fired(entries: seq<Entry>): (s: set<Element>)
    reads Targets(entries)`textContent
    ensures s <= IntersectingTargets(entries)
  {
    if entries == [] then {}
    else
      var last := entries[|entries| - 1];
      TargetsOfPrefix(entries, |entries| - 1);
      assert IntersectingTargets(entries[..|entries| - 1]) <= IntersectingTargets(entries) by {
        forall e | e in IntersectingTargets(entries[..|entries| - 1]) ensures e in IntersectingTargets(entries) {
          var i :| 0 <= i < |entries| - 1 && entries[..|entries| - 1][i].isIntersecting
                   && entries[..|entries| - 1][i].target == e;
          assert entries[i].isIntersecting && entries[i].target == e;
        }
      }
      assert last.isIntersecting ==> last.target in IntersectingTargets(entries);
      Fired(entries[..|entries| - 1]) + if Fires(last) then {last.target} else {}
  }

  /** The `animateCounter` call for an element showing `text`. */
  function StartFor(element: Element, text: string, counterDuration: Option<int>): (s: CounterStart)
    ensures s.element == element && s.target == ParseNumber(text).value && s.suffix == ParseNumber(text).suffix
    ensures s.duration == CounterDuration(s.target, counterDuration)
    ensures s.duration <= 2000 && s.duration <= BaseDuration(counterDuration)
    ensures s.duration <= DurationCap(s.target)
  {
    var parsed := ParseNumber(text);
    CounterStart(element, parsed.value, CounterDuration(parsed.value, counterDuration), parsed.suffix)
  }

  /** The `animateCounter` calls the counter callback makes for `entries`. */
  function Starts(entries: seq<Entry>): seq<CounterStart>
    reads Targets(entries)`textContent, Targets(entries)`counterDuration
  {
    if entries == [] then []
    else
      var last := entries[|entries| - 1];
      TargetsOfPrefix(entries, |entries| - 1);
      Starts(entries[..|entries| - 1])
        + if Fires(last)
          then [StartFor(last.target, last.target.textContent, last.target.counterDuration)]
          else []
  }

  /** Every element the counter callback starts is one it animates. */
  lemma {:induction false} StartsFired(entries: seq<Entry>)
    ensures forall s :: s in Starts(entries) ==> s.element in Fired(entries)
  {
    if entries != [] {
      var n := |entries| - 1;
      TargetsOfPrefix(entries, n);
      StartsFired(entries[..n]);
    }
  }

  /** A counter fires at most once: when the callback's batch is about
      observed elements only, as the browser guarantees, and no started
      element is still observed, no element starts a second time. */
  lemma NoCounterStartsTwice(started: seq<CounterStart>, observed: set<Element>, entries: seq<Entry>)
    requires forall s :: s in started ==> s.element !in observed
    requires Targets(entries) <= observed
    ensures forall s, s' :: s in started && s' in Starts(entries) ==> s.element != s'.element
  {
    StartsFired(entries);
  }

  /** The observer of `initCounterAnimations`. `observed` is what it watches;
      `started` records the `animateCounter` calls, in order. */
  class CounterObserver {
    var observed: set<Element>
    var started: seq<CounterStart>

    /** No element that has started is still observed. */
    ghost predicate Valid()
      reads this
    {
      forall s :: s in started ==> s.element !in observed
    }

    /** `initCounterAnimations`, with the `[data-counter]` elements. */
    constructor(counters: seq<Element>)
      ensures observed == Elements(counters)
      ensures started == []
      ensures Valid()
    {
      observed := Elements(counters);
      started := [];
    }

    /** The observer callback: each intersecting element whose text parses to
        a positive number keeps its original text (unless one is stored
        already), starts its animation and is unobserved, so that it does not
        fire again; any other element is left alone and stays observed. */
    method HandleEntries(entries: seq<Entry>)
      requires Valid()
      modifies this, Targets(entries)`originalText
      ensures Valid()
      ensures observed == old(observed) - Fired(entries)
      ensures started == old(started) + Starts(entries)
      ensures forall e :: e in Targets(entries) ==>
                e.originalText == if e in Fired(entries) && NotStored(old(e.originalText))
                                  then Some(e.textContent) else old(e.originalText)
    {
      var i := 0;
      while i < |entries|
        invariant 0 <= i <= |entries|
        invariant observed == old(observed) - old(Fired(entries[..i]))
        invariant started == old(started) + old(Starts(entries[..i]))
        invariant forall e :: e in Targets(entries) ==>
                    e.originalText == if e in old(Fired(entries[..i])) && NotStored(old(e.originalText))
                                      then Some(e.textContent) else old(e.originalText)
      {
        var entry := entries[i];
        assert entry.target in Targets(entries);
        assert entries[..i + 1][..i] == entries[..i];
        HandleEntry(entry);
        i := i + 1;
      }
      assert entries[..i] == entries;
      StartsFired(entries);
    }

    /** The callback's work on one entry. */
    method HandleEntry(entry: Entry)
      modifies this, entry.target`originalText
      ensures observed == old(observed) - if Fires(entry) then {entry.target} else {}
      ensures started == old(started)
                         + if Fires(entry)
                           then [StartFor(entry.target, entry.target.textContent, entry.target.counterDuration)]
                           else []
      ensures entry.target.originalText
           == if Fires(entry) && NotStored(old(entry.target.originalText))
              then Some(entry.target.textContent) else old(entry.target.originalText)
    {
      var element := entry.target;
      if entry.isIntersecting {
        var parsed := ParseNumber(element.textContent);
        if parsed.value > 0 {
          if NotStored(element.originalText) {
            element.originalText := Some(element.textContent);
          }
          var duration := CounterDuration(parsed.value, element.counterDuration);
          started := started + [CounterStart(element, parsed.value, duration, parsed.suffix)];
          observed := observed - {element};
        }
      }
    }
  }

  /** Where an `animateCounter` animation is: waiting for its next frame, or
      done. */
  datatype Phase = Running | Complete

  /** One `animateCounter` animation: `Tick` is the `updateCounter` frame
      callback, which runs while the animation is `Running`. */
  class CounterAnimation {
    const element: Element
    const target: nat
    const duration: int
    const suffix: string
    /** `performance.now()` when the animation started. */
    const startTime: real
    var phase: Phase

    /** `animateCounter`: the first frame is requested. */
    constructor(element: Element, target: nat, duration: int, suffix: string, startTime: real)
      ensures this.element == element && this.target == target && this.duration == duration
      ensures this.suffix == suffix && this.startTime == startTime
      ensures phase == Running
    {
      this.element := element;
      this.target := target;
      this.duration := duration;
      this.suffix := suffix;
      this.startTime := startTime;
      phase := Running;
    }

    /** `updateCounter(now)`: shows the eased value with the suffix, and
        either requests another frame or shows the exact target. */
    method Tick(now: real)
      requires phase == Running
      modifies this, element`textContent
      ensures element.textContent == CounterFrame(target, duration, suffix, now - startTime).text
      ensures phase == if CounterFrame(target, duration, suffix, now - startTime).again then Running else Complete
    {
      var elapsed := now - startTime;
      var frame := CounterFrame(target, duration, suffix, elapsed);
      element.textContent := frame.text;
      phase := if frame.again then Running else Complete;
    }
  }

  // ----- stagger -----

  /** The delay of the item at `index` in its container, in milliseconds. */
  function StaggerDelay(index: nat): (ms: nat)
    ensures ms % 100 == 0 && ms / 100 == index
  {
    index * 100
  }

  /** `${delay}ms`. */
  function DelayText(index: nat): string {
    Show(StaggerDelay(index)) + "ms"
  }

  /** The delay text reads back as the delay, with the unit as its suffix. */
  lemma DelayTextParses(index: nat)
    ensures ParseNumber(DelayText(index)) == Parsed(StaggerDelay(index), "ms")
  {
    ParseShow(StaggerDelay(index), "ms");
  }

  /** Later items wait longer, and no two indices share a delay text. */
  lemma StaggerDelayProperties(i: nat, j: nat)
    requires i < j
    ensures StaggerDelay(i) < StaggerDelay(j)
    ensures DelayText(i) != DelayText(j)
  {
    DelayTextParses(i);
    DelayTextParses(j);
  }

  /** Each item paired with its index in its own container. */
  function Indexed(items: seq<Element>): (r: seq<(Element, nat)>)
    ensures |r| == |items|
    ensures forall i :: 0 <= i < |r| ==> r[i] == (items[i], i)
  {
    seq(|items|, i requires 0 <= i < |items| => (items[i], i))
  }

  /** The items of all containers with their indices, container after container. */
  function StaggerItems(containers: seq<seq<Element>>): seq<(Element, nat)> {
    if containers == [] then []
    else StaggerItems(containers[..|containers| - 1]) + Indexed(containers[|containers| - 1])
  }

  /** The elements of all containers. */
  function Items(containers: seq<seq<Element>>): set<Element> {
    if containers == [] then {}
    else
      var last := containers[|containers| - 1];
      Items(containers[..|containers| - 1]) + Elements(last)
  }

  /** Every container's items are among the items. */
  lemma {:induction false} ItemsContain(containers: seq<seq<Element>>, k: nat)
    requires k < |containers|
    ensures Elements(containers[k]) <= Items(containers)
  {
    var n := |containers| - 1;
    if k < n {
      assert containers[..n][k] == containers[k];
      ItemsContain(containers[..n], k);
    }
  }

  /** The index each item's delay ends up with: a later assignment overrides
      an earlier one. */
  function FinalIndex(pairs: seq<(Element, nat)>): map<Element, nat> {
    if pairs == [] then map[]
    else
      var last := pairs[|pairs| - 1];
      FinalIndex(pairs[..|pairs| - 1])[last.0 := last.1]
  }

  /** Every element of the pairs gets an index. */
  lemma {:induction false} FinalIndexKeys(pairs: seq<(Element, nat)>)
    ensures FinalIndex(pairs).Keys == set p | p in pairs :: p.0
  {
    if pairs != [] {
      var init := pairs[..|pairs| - 1];
      FinalIndexKeys(init);
      assert pairs == init + [pairs[|pairs| - 1]];
    }
  }

  /** An element paired with one index only ends up with that index. */
  lemma {:induction false} FinalIndexOfUnique(pairs: seq<(Element, nat)>, e: Element, i: nat)
    requires (e, i) in pairs
    requires forall p :: p in pairs && p.0 == e ==> p.1 == i
    ensures e in FinalIndex(pairs) && FinalIndex(pairs)[e] == i
  {
    var init := pairs[..|pairs| - 1];
    var last := pairs[|pairs| - 1];
    assert pairs == init + [last];
    if last.0 != e {
      FinalIndexOfUnique(init, e, i);
    }
  }

  /** The pairs are exactly the items with their indices in their containers. */
  lemma {:induction false} StaggerItemsMembers(containers: seq<seq<Element>>, e: Element, i: nat)
    ensures (e, i) in StaggerItems(containers)
        <==> exists k :: 0 <= k < |containers| && i < |containers[k]| && containers[k][i] == e
  {
    if containers != [] {
      var n := |containers| - 1;
      StaggerItemsMembers(containers[..n], e, i);
      var idx := Indexed(containers[n]);
      assert (e, i) in idx <==> i < |containers[n]| && containers[n][i] == e by {
        if (e, i) in idx {
          var j :| 0 <= j < |idx| && idx[j] == (e, i);
        }
        if i < |containers[n]| && containers[n][i] == e {
          assert idx[i] == (e, i);
        }
      }
      if exists k :: 0 <= k < |containers| && i < |containers[k]| && containers[k][i] == e {
        var k :| 0 <= k < |containers| && i < |containers[k]| && containers[k][i] == e;
        if k < n {
          assert containers[..n][k] == containers[k];
        }
      }
      if exists k :: 0 <= k < |containers[..n]| && i < |containers[..n][k]| && containers[..n][k][i] == e {
        var k :| 0 <= k < |containers[..n]| && i < |containers[..n][k]| && containers[..n][k][i] == e;
        assert containers[k] == containers[..n][k];
      }
    }
  }

  /** Numbering restarts in every container: an item that always sits at
      index `i` of its containers (in particular one that appears in only one
      place) ends up with the delay of index `i`. */
  lemma StaggerIndexOfItem(containers: seq<seq<Element>>, k: nat, i: nat)
    requires k < |containers| && i < |containers[k]|
    requires forall k', i' :: (0 <= k' < |containers| && 0 <= i' < |containers[k']|
                               && containers[k'][i'] == containers[k][i]) ==> i' == i
    ensures containers[k][i] in FinalIndex(StaggerItems(containers))
    ensures FinalIndex(StaggerItems(containers))[containers[k][i]] == i
  {
    var e := containers[k][i];
    var pairs := StaggerItems(containers);
    StaggerItemsMembers(containers, e, i);
    forall p | p in pairs && p.0 == e ensures p.1 == i {
      StaggerItemsMembers(containers, e, p.1);
    }
    FinalIndexOfUnique(pairs, e, i);
  }

  /** Gives each container's items their delays and observes them, as the
      stagger loop of `initScrollAnimations` does. */
  method ApplyStagger(animations: ScrollAnimations, containers: seq<seq<Element>>)
    modifies animations, Items(containers)`transitionDelay, Items(containers)`animationDelay
    ensures animations.observed == old(animations.observed) + Items(containers)
    ensures animations.options == old(animations.options) && animations.animated == old(animations.animated)
    ensures forall e :: e in FinalIndex(StaggerItems(containers)) ==>
              e.transitionDelay == DelayText(FinalIndex(StaggerItems(containers))[e])
              && e.animationDelay == DelayText(FinalIndex(StaggerItems(containers))[e])
  {
    var k := 0;
    while k < |containers|
      invariant 0 <= k <= |containers|
      invariant animations.observed == old(animations.observed) + Items(containers[..k])
      invariant animations.options == old(animations.options) && animations.animated == old(animations.animated)
      invariant forall e :: e in FinalIndex(StaggerItems(containers[..k])) ==>
                  e.transitionDelay == DelayText(FinalIndex(StaggerItems(containers[..k]))[e])
                  && e.animationDelay == DelayText(FinalIndex(StaggerItems(containers[..k]))[e])
    {
      ItemsContain(containers, k);
      StaggerContainer(animations, containers[k], StaggerItems(containers[..k]));
      assert containers[..k + 1][..k] == containers[..k];
      k := k + 1;
    }
    assert containers[..k] == containers;
  }

  /** The stagger loop over one container's items; `done` are the items of
      the containers before it, whose delays are already set. */
  method StaggerContainer(animations: ScrollAnimations, children: seq<Element>, ghost done: seq<(Element, nat)>)
    requires forall e :: e in FinalIndex(done) ==>
               e.transitionDelay == DelayText(FinalIndex(done)[e])
               && e.animationDelay == DelayText(FinalIndex(done)[e])
    modifies animations, Elements(children)`transitionDelay, Elements(children)`animationDelay
    ensures animations.observed == old(animations.observed) + Elements(children)
    ensures animations.options == old(animations.options) && animations.animated == old(animations.animated)
    ensures forall e :: e in FinalIndex(done + Indexed(children)) ==>
              e.transitionDelay == DelayText(FinalIndex(done + Indexed(children))[e])
              && e.animationDelay == DelayText(FinalIndex(done + Indexed(children))[e])
  {
    assert done + Indexed(children)[..0] == done;
    ghost var delays := FinalIndex(done);
    var i := 0;
    while i < |children|
      invariant 0 <= i <= |children|
      invariant delays == FinalIndex(done + Indexed(children)[..i])
      invariant animations.observed == old(animations.observed) + Elements(children[..i])
      invariant animations.options == old(animations.options) && animations.animated == old(animations.animated)
      invariant DelaysApplied(delays)
    {
      var child := children[i];
      StaggerStep(done, children, i);
      ElementsOfSnoc(children, i);
      StaggerChild(animations, child, i, delays);
      delays := delays[child := i];
      i := i + 1;
    }
    assert Indexed(children)[..i] == Indexed(children);
    assert children[..i] == children;
  }

  /** Every element in `delays` shows the delay of its index. */
  ghost predicate DelaysApplied(delays: map<Element, nat>)
    reads delays.Keys`transitionDelay, delays.Keys`animationDelay
  {
    forall e :: e in delays ==>
      e.transitionDelay == DelayText(delays[e]) && e.animationDelay == DelayText(delays[e])
  }

  /** One more item of a container assigns its index. */
  lemma StaggerStep(done: seq<(Element, nat)>, children: seq<Element>, i: nat)
    requires i < |children|
    ensures FinalIndex(done + Indexed(children)[..i + 1])
         == FinalIndex(done + Indexed(children)[..i])[children[i] := i]
  {
    var after := done + Indexed(children)[..i + 1];
    assert after[..|after| - 1] == done + Indexed(children)[..i] && after[|after| - 1] == (children[i], i);
  }

  /** The `forEach` callback for one item: its delays, then `observe`. */
  method StaggerChild(animations: ScrollAnimations, child: Element, index: nat, ghost delays: map<Element, nat>)
    requires DelaysApplied(delays)
    modifies animations, child`transitionDelay, child`animationDelay
    ensures DelaysApplied(delays[child := index])
    ensures animations.observed == old(animations.observed) + {child}
    ensures animations.options == old(animations.options) && animations.animated == old(animations.animated)
  {
    SetDelay(child, index);
    forall e: Element | e in delays[child := index]
      ensures e.transitionDelay == DelayText(delays[child := index][e])
      ensures e.animationDelay == DelayText(delays[child := index][e])
    {
      if e != child {
        assert e in delays;
      }
    }
    animations.Observe(child);
  }

  /** `style.transitionDelay` and `style.animationDelay` of one item. */
  method SetDelay(child: Element, index: nat)
    modifies child`transitionDelay, child`animationDelay
    ensures child.transitionDelay == DelayText(index) && child.animationDelay == DelayText(index)
  {
    var delay := DelayText(index);
    child.transitionDelay := delay;
    child.animationDelay := delay;
  }

  /** `initScrollAnimations` without the parallax and counters: the reveal
      observer with its options, watching every `[data-animate]` element and
      every stagger item, the items' delays set. */
  method InitScrollAnimations(animated: seq<Element>, containers: seq<seq<Element>>)
      returns (animations: ScrollAnimations)
    modifies Items(containers)`transitionDelay, Items(containers)`animationDelay
    ensures fresh(animations)
    ensures animations.options == Options(Some(0.1), Some("0px 0px -100px 0px"), Some(true))
    ensures animations.observed == Elements(animated) + Items(containers)
    ensures animations.animated == []
    ensures forall e :: e in FinalIndex(StaggerItems(containers)) ==>
              e.transitionDelay == DelayText(FinalIndex(StaggerItems(containers))[e])
              && e.animationDelay == DelayText(FinalIndex(StaggerItems(containers))[e])
  {
    animations := new ScrollAnimations(AnimationOptions(Given(0.1), Given("0px 0px -100px 0px"), Given(true)));
    animations.ObserveAll(animated);
    ApplyStagger(animations, containers);
  }

  // ----- parallax -----

  /** The scroll throttle of `initParallax`: the `ticking` flag, the number of
      animation-frame callbacks pending, and how many times `updateParallax`
      has run. */
  datatype Throttle = Throttle(ticking: bool, pending: nat, updates: nat)

  /** The throttle's invariant: a callback is pending exactly while ticking. */
  predicate ThrottleValid(t: Throttle) {
    t.pending == if t.ticking then 1 else 0
  }

  /** `onScroll`: a frame is requested only when none is. */
  function OnScroll(t: Throttle): (r: Throttle)
    ensures r.updates == t.updates
    ensures ThrottleValid(t) ==> ThrottleValid(r) && r.ticking && r.pending == 1
  {
    if !t.ticking then Throttle(true, t.pending + 1, t.updates) else t
  }

  /** The requested frame callback: update, then clear `ticking`. */
  function OnFrame(t: Throttle): (r: Throttle)
    requires t.pending > 0
    ensures r.updates == t.updates + 1
    ensures ThrottleValid(t) ==> ThrottleValid(r) && !r.ticking && r.pending == 0
  {
    Throttle(false, t.pending - 1, t.updates + 1)
  }

  /** What reaches the page: a scroll event, or an animation frame (which
      runs a callback only if one is pending). */
  datatype Event = Scrolled | FrameRendered

  /** The throttle after one event. */
  function OnEvent(t: Throttle, e: Event): Throttle {
    match e
    case Scrolled => OnScroll(t)
    case FrameRendered => if t.pending > 0 then OnFrame(t) else t
  }

  /** The throttle after a run of events; updates are never undone. */
  function Run(t: Throttle, events: seq<Event>): (r: Throttle)
    ensures r.updates >= t.updates
    decreases |events|
  {
    if events == [] then t else Run(OnEvent(t, events[0]), events[1..])
  }

  /** A run extended by one event is that event applied after the run: the
      `Parallax` calls below, made one event at a time, follow `Run`. */
  lemma {:induction false} RunSnoc(t: Throttle, events: seq<Event>, e: Event)
    ensures Run(t, events + [e]) == OnEvent(Run(t, events), e)
    decreases |events|
  {
    if events == [] {
      assert events + [e] == [e];
    } else {
      assert (events + [e])[1..] == events[1..] + [e];
      RunSnoc(OnEvent(t, events[0]), events[1..], e);
    }
  }

  /** How many of the events are of the given kind. */
  function Count(events: seq<Event>, kind: Event): nat {
    if events == [] then 0 else (if events[0] == kind then 1 else 0) + Count(events[1..], kind)
  }

  /** The throttle at page load. */
  const Idle := Throttle(false, 0, 0)

  /** At most one callback is ever pending, whatever the events. */
  lemma {:induction false} RunKeepsThrottleValid(t: Throttle, events: seq<Event>)
    requires ThrottleValid(t)
    ensures ThrottleValid(Run(t, events)) && Run(t, events).pending <= 1
    decreases |events|
  {
    if events != [] {
      RunKeepsThrottleValid(OnEvent(t, events[0]), events[1..]);
    }
  }

  /** However many scroll events arrive before the next frame, one callback is
      pending and nothing has been recomputed yet. */
  lemma {:induction false} ScrollBurstSchedulesOnce(t: Throttle, n: nat)
    requires ThrottleValid(t) && n > 0
    ensures Run(t, seq(n, _ => Scrolled)) == Throttle(true, 1, t.updates)
    decreases n
  {
    var events := seq(n, _ => Scrolled);
    assert events[1..] == seq(n - 1, _ => Scrolled);
    if n > 1 {
      ScrollBurstSchedulesOnce(OnScroll(t), n - 1);
    }
  }

  /** Each recomputation needs a frame and a scroll before it. */
  lemma {:induction false} UpdatesBounded(t: Throttle, events: seq<Event>)
    requires ThrottleValid(t)
    ensures Run(t, events).updates <= t.updates + Count(events, FrameRendered)
    ensures Run(t, events).updates <= t.updates + t.pending + Count(events, Scrolled)
    decreases |events|
  {
    if events != [] {
      UpdatesBounded(OnEvent(t, events[0]), events[1..]);
    }
  }

  /** The parallax controller of `initParallax`: the imperative face of
      `OnScroll` and `OnFrame`. Each method's contract ties the new state to
      one of them, so by `RunSnoc` a controller driven by the browser's
      events is in the state `Run` gives, and the lemmas about `Run` hold of
      it. */
  class Parallax {
    var ticking: bool
    var pending: nat
    var updates: nat

    function State(): Throttle
      reads this
    {
      Throttle(ticking, pending, updates)
    }

    constructor()
      ensures State() == Idle
    {
      ticking, pending, updates := false, 0, 0;
    }

    /** The scroll listener. */
    method OnScrollEvent()
      modifies this
      ensures State() == OnScroll(old(State()))
      ensures ThrottleValid(old(State())) ==> ThrottleValid(State()) && pending == 1
    {
      if !ticking {
        pending := pending + 1;
        ticking := true;
      }
    }

    /** The requested animation-frame callback. */
    method OnAnimationFrame()
      requires pending > 0
      modifies this
      ensures State() == OnFrame(old(State()))
      ensures ThrottleValid(old(State())) ==> ThrottleValid(State()) && !ticking
    {
      pending := pending - 1;
      updates := updates + 1;
      ticking := false;
    }
  }
}
