/**
 * The home page's FAQ accordion (app/page.tsx): the six question/answer
 * pairs, the `openIndex` state slot that a click on a question toggles, and
 * what that slot decides on screen, namely which answer is rendered and which
 * chevron is rotated.
 */
module FaqAccordion {
  import opened Wrappers

  datatype Faq = Faq(question: string, answer: string)

  /** The `faqs` list, in display order. */
  const Faqs: seq<Faq> := [
    Faq("What are your fees?",
        "Our fees vary depending on the service provided. Please contact us for details."),
    Faq("Do you take insurance?",
        "Yes, we accept most major insurance plans. Please verify with your provider."),
    Faq("Do you provide online counseling?",
        "Yes, we offer secure video counseling sessions."),
    Faq("What are your office hours?",
        "Monday to Friday: 9am \U{2013} 6pm, Saturday: 10am \U{2013} 2pm."),
    Faq("What geographic areas do you serve?",
        "We serve clients across the state and offer online sessions nationwide."),
    Faq("What services do you offer?",
        "We offer individual, couples, and family counseling services.")
  ]

  /** `openIndex` names no question or one that the list has. */
  predicate ValidOpen(open: Option<nat>) {
    open.None? || open.value < |Faqs|
  }

  /**
   * `openIndex === index ? null : index`: clicking the open question closes
   * it; clicking any other question opens that one, which closes whatever
   * was open before.
   */
  function Toggle(open: Option<nat>, index: nat): (r: Option<nat>)
    ensures r == None <==> open == Some(index)
    ensures r != None ==> r == Some(index)
  {
    if open == Some(index) then None else Some(index)
  }

  /** `openIndex === index && <p>…</p>`: the answer of question `i` is rendered. */
  predicate AnswerShown(open: Option<nat>, i: nat) {
    open == Some(i)
  }

  /** The indices whose answers are rendered. */
  ghost function ShownAnswers(open: Option<nat>): set<nat> {
    set i | 0 <= i < |Faqs| && AnswerShown(open, i)
  }

  /**
   * The chevron's rotation class for question `i`: rotated exactly when that
   * question's answer is rendered.
   */
  function ChevronClass(open: Option<nat>, i: nat): (r: string)
    ensures r == "rotate-180" <==> AnswerShown(open, i)
    ensures r != "rotate-180" ==> r == ""
  {
    if open == Some(i) then "rotate-180" else ""
  }

  /**
   * At most one answer is rendered at a time, and, for a valid state, one is
   * rendered exactly when some question is open: the one it names.
   */
  lemma AtMostOneAnswerShown(open: Option<nat>)
    requires ValidOpen(open)
    ensures |ShownAnswers(open)| <= 1
    ensures open.None? ==> ShownAnswers(open) == {}
    ensures open.Some? ==> ShownAnswers(open) == {open.value}
  {
    if open.Some? {
      assert open.value in ShownAnswers(open);
      assert ShownAnswers(open) == {open.value};
    } else {
      assert ShownAnswers(open) == {};
    }
  }

  /** Clicking a valid question keeps the state valid. */
  lemma ToggleKeepsValid(open: Option<nat>, index: nat)
    requires ValidOpen(open) && index < |Faqs|
    ensures ValidOpen(Toggle(open, index))
  {
  }

  /**
   * Clicking the same question twice, starting with nothing open or with that
   * question open, restores the starting state.
   */
  lemma ToggleTwiceRestores(open: Option<nat>, index: nat)
    requires open == None || open == Some(index)
    ensures Toggle(Toggle(open, index), index) == open
  {
  }

  /**
   * Starting from another open question, two clicks on `index` do not
   * restore it: the first closes it and the second closes `index`.
   */
  lemma ToggleTwiceFromOther(other: nat, index: nat)
    requires other != index
    ensures Toggle(Some(other), index) == Some(index)
    ensures Toggle(Toggle(Some(other), index), index) == None
  {
  }

  /** `openIndex` after the clicks `clicks`, in order, starting from `open`. */
  function AfterClicks(open: Option<nat>, clicks: seq<nat>): Option<nat>
    decreases |clicks|
  {
    if clicks == [] then open else AfterClicks(Toggle(open, clicks[0]), clicks[1..])
  }

  /**
   * Every state the page reaches from its initial one is valid, and after at
   * least one click it is either nothing open or the last question clicked.
   */
  lemma {:induction false} AfterClicksReachable(open: Option<nat>, clicks: seq<nat>)
    requires ValidOpen(open)
    requires forall k :: 0 <= k < |clicks| ==> clicks[k] < |Faqs|
    ensures ValidOpen(AfterClicks(open, clicks))
    ensures clicks != [] ==>
              AfterClicks(open, clicks) == None || AfterClicks(open, clicks) == Some(clicks[|clicks| - 1])
    decreases |clicks|
  {
    if clicks != [] {
      ToggleKeepsValid(open, clicks[0]);
      AfterClicksReachable(Toggle(open, clicks[0]), clicks[1..]);
    }
  }

  /** A run of clicks ending on `i` leaves `i` open exactly when it was not open just before. */
  lemma LastClickDecides(open: Option<nat>, clicks: seq<nat>, i: nat)
    requires clicks != [] && clicks[|clicks| - 1] == i
    ensures var before := AfterClicks(open, clicks[..|clicks| - 1]);
            AnswerShown(AfterClicks(open, clicks), i) <==> !AnswerShown(before, i)
  {
    AfterClicksSnoc(open, clicks[..|clicks| - 1], i);
    assert clicks[..|clicks| - 1] + [i] == clicks;
  }

  /** Replaying one more click is one more toggle. */
  lemma {:induction false} AfterClicksSnoc(open: Option<nat>, clicks: seq<nat>, c: nat)
    ensures AfterClicks(open, clicks + [c]) == Toggle(AfterClicks(open, clicks), c)
    decreases |clicks|
  {
    if clicks == [] {
      assert clicks + [c] == [c];
    } else {
      assert (clicks + [c])[1..] == clicks[1..] + [c];
      AfterClicksSnoc(Toggle(open, clicks[0]), clicks[1..], c);
    }
  }

  /** The `Home` component's accordion state. */
  class Accordion {
    /** `openIndex`: the open question, or `null`. */
    var openIndex: Option<nat>

    predicate Valid()
      reads this
    {
      ValidOpen(openIndex)
    }

    /** Initially no question is open. */
    constructor ()
      ensures openIndex == None && Valid()
    {
      openIndex := None;
    }

    /**
     * A click on the button of question `index`. Buttons are rendered only
     * for the questions of the list, so `index` is one of them.
     */
    method Click(index: nat)
      requires Valid() && index < |Faqs|
      modifies this
      ensures openIndex == Toggle(old(openIndex), index)
      ensures Valid()
    {
      if openIndex == Some(index) {
        openIndex := None;
      } else {
        openIndex := Some(index);
      }
    }
  }

  /**
   * A visit: open the third question, open the first (closing the third),
   * then click the first again; nothing is left open and no chevron turned.
   */
  method SampleClicks()
  {
    var faq := new Accordion();
    faq.Click(2);
    assert AnswerShown(faq.openIndex, 2) && ChevronClass(faq.openIndex, 2) == "rotate-180";
    faq.Click(0);
    assert !AnswerShown(faq.openIndex, 2) && AnswerShown(faq.openIndex, 0);
    faq.Click(0);
    assert faq.openIndex == None && ChevronClass(faq.openIndex, 0) == "";
  }
}
