/**
 * The home page's scroll-reveal hook, `useIntersectionObserver`
 * (app/page.tsx): the options it hands the observer, defaults overridden by
 * the caller's own, and the `isIntersecting` flag that each observer callback
 * overwrites with what the callback's first entry reports. The observer is
 * abstracted to the sequence of callbacks it makes; geometry is not modelled.
 */
module Reveal {

  /** A value an observer option can hold. */
  datatype OptionValue = Number(n: real) | Text(s: string) | Undefined

  type Options = map<string, OptionValue>

  /** The hook's own options: a tenth of the target visible, a 50px margin. */
  const DefaultOptions: Options := map["threshold" := Number(0.1), "rootMargin" := Text("50px")]

  /**
   * `{ threshold: 0.1, rootMargin: '50px', ...options }`: every key the
   * defaults or the caller name, each holding the caller's value when the
   * caller supplies one (even `undefined`) and the default otherwise.
   */
  function EffectiveOptions(caller: Options): (r: Options)
    ensures r.Keys == DefaultOptions.Keys + caller.Keys
    ensures forall k :: k in caller ==> r[k] == caller[k]
    ensures forall k :: k in DefaultOptions && k !in caller ==> r[k] == DefaultOptions[k]
  {
    DefaultOptions + caller
  }

  /** Every use on the page passes no options, so the observer gets the defaults. */
  lemma NoOptionsGivesDefaults()
    ensures EffectiveOptions(map[]) == DefaultOptions
    ensures EffectiveOptions(map[])["threshold"] == Number(0.1)
    ensures EffectiveOptions(map[])["rootMargin"] == Text("50px")
  {
    assert DefaultOptions + map[] == DefaultOptions;
  }

  /** A caller's threshold replaces the default one and leaves the margin alone. */
  lemma CallerThresholdWins(t: real)
    ensures EffectiveOptions(map["threshold" := Number(t)])
              == map["threshold" := Number(t), "rootMargin" := Text("50px")]
  {
  }

  /** Merging once more with the defaults changes nothing: the caller's values already won. */
  lemma MergeIdempotent(caller: Options)
    ensures EffectiveOptions(EffectiveOptions(caller)) == EffectiveOptions(caller)
  {
    var once := EffectiveOptions(caller);
    var twice := EffectiveOptions(once);
    assert twice.Keys == once.Keys;
    forall k | k in once ensures twice[k] == once[k] {
    }
  }

  /** An `IntersectionObserverEntry`, reduced to whether its target intersects. */
  datatype ObserverEntry = ObserverEntry(isIntersecting: bool)

  /**
   * `opacity-100 translate-y-0` when revealed, `opacity-0 translate-y-8`
   * otherwise: a section is drawn in place exactly when its flag is set.
   */
  function RevealClasses(revealed: bool): (r: string)
    ensures r == "opacity-100 translate-y-0" <==> revealed
    ensures !revealed ==> r == "opacity-0 translate-y-8"
  {
    if revealed then "opacity-100 translate-y-0" else "opacity-0 translate-y-8"
  }

  /** The flag after the callbacks `calls`, each given by its first entry's report, from `start`. */
  function FlagAfter(start: bool, calls: seq<bool>): bool
    decreases |calls|
  {
    if calls == [] then start else FlagAfter(calls[0], calls[1..])
  }

  /**
   * The flag has no memory beyond the latest callback: after any callback it
   * is what that callback reported, and before any it is the start value.
   */
  lemma {:induction false} FlagIsLastReport(start: bool, calls: seq<bool>)
    ensures calls == [] ==> FlagAfter(start, calls) == start
    ensures calls != [] ==> FlagAfter(start, calls) == calls[|calls| - 1]
    decreases |calls|
  {
    if |calls| > 1 {
      FlagIsLastReport(calls[0], calls[1..]);
    }
  }

  /** The report of each callback: its first entry's `isIntersecting`. */
  function FirstReports(batches: seq<seq<ObserverEntry>>): (r: seq<bool>)
    requires forall i :: 0 <= i < |batches| ==> batches[i] != []
    ensures |r| == |batches|
    ensures forall i :: 0 <= i < |r| ==> r[i] == batches[i][0].isIntersecting
    decreases |batches|
  {
    if batches == [] then [] else [batches[0][0].isIntersecting] + FirstReports(batches[1..])
  }

  /** A callback stream ending in a report of `false` leaves the section hidden, whatever came before. */
  lemma {:induction false} NotLatched(start: bool, calls: seq<bool>)
    ensures !FlagAfter(start, calls + [false])
  {
    FlagIsLastReport(start, calls + [false]);
  }

  /** The state `useIntersectionObserver` keeps for one observed element. */
  class RevealSignal {
    /** `isIntersecting`. */
    var isIntersecting: bool

    /** The flag starts cleared: the section starts hidden. */
    constructor ()
      ensures !isIntersecting
    {
      isIntersecting := false;
    }

    /**
     * The observer callback `([entry]) => setIsIntersecting(entry.isIntersecting)`.
     * The observer never calls it with no entries; of several, only the
     * first is read.
     */
    method OnEntries(entries: seq<ObserverEntry>)
      requires entries != []
      modifies this
      ensures isIntersecting == entries[0].isIntersecting
    {
      var entry := entries[0];
      isIntersecting := entry.isIntersecting;
    }

    /**
     * The observer's callbacks, in the order it makes them, each given the
     * batch of entries it receives: the flag ends where `FlagAfter` says.
     */
    method OnCallbacks(batches: seq<seq<ObserverEntry>>)
      requires forall i :: 0 <= i < |batches| ==> batches[i] != []
      modifies this
      ensures isIntersecting == FlagAfter(old(isIntersecting), FirstReports(batches))
    {
      ghost var start := isIntersecting;
      var i := 0;
      while i < |batches|
        invariant 0 <= i <= |batches|
        invariant i == 0 ==> isIntersecting == start
        invariant i > 0 ==> isIntersecting == batches[i - 1][0].isIntersecting
      {
        OnEntries(batches[i]);
        i := i + 1;
      }
      FlagIsLastReport(start, FirstReports(batches));
    }
  }

  /** The section is revealed on scrolling in and hidden again on scrolling out. */
  method SampleScroll()
  {
    var section := new RevealSignal();
    assert RevealClasses(section.isIntersecting) == "opacity-0 translate-y-8";
    section.OnEntries([ObserverEntry(true)]);
    assert RevealClasses(section.isIntersecting) == "opacity-100 translate-y-0";
    section.OnEntries([ObserverEntry(false)]);
    assert !section.isIntersecting;
  }
}
