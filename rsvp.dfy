/**
 * The attendance (RSVP) form of the invitation page (src/components/RsvpSection.jsx):
 * a five-field form record, a presence check on the required fields, and the
 * flags that take the section from the form, through "sending", to a thank-you
 * message that stays.
 *
 * `RsvpState` is the component's React state, the handlers are functions on it,
 * and the class `RsvpForm` holds the same state in fields with one method per
 * handler, each proved to perform its function.
 */
module Rsvp {

  /** The value of the attendance radio that means "will attend". */
  const Attend: string := "참석"
  /** The value of the attendance radio that means "cannot attend". */
  const Decline: string := "불참"
  /** The two values of the side radio: the groom's and the bride's guests. */
  const GroomSide: string := "신랑측"
  const BrideSide: string := "신부측"

  /** The `name` attributes of the form's controls. */
  datatype Field = Name | Side | Attending | Guests | Message

  /** The `formData` record. All values are strings, as the DOM delivers them. */
  datatype FormData = FormData(name: string, side: string, attending: string, guests: string, message: string)

  /** The fields the submit handler insists on. */
  const Required: set<Field> := {Name, Side, Attending}

  function Get(d: FormData, f: Field): string {
    match f
    case Name => d.name
    case Side => d.side
    case Attending => d.attending
    case Guests => d.guests
    case Message => d.message
  }

  /** `handleChange`'s update `{ ...prev, [name]: value }`: field `f` takes `v`, every other field keeps its value. */
  function Update(d: FormData, f: Field, v: string): (r: FormData)
    ensures Get(r, f) == v
    ensures forall g :: g != f ==> Get(r, g) == Get(d, g)
  {
    match f
    case Name => d.(name := v)
    case Side => d.(side := v)
    case Attending => d.(attending := v)
    case Guests => d.(guests := v)
    case Message => d.(message := v)
  }

  /** Two records that agree on every field are the same record. */
  lemma FieldsDetermineRecord(d: FormData, e: FormData)
    requires forall f :: Get(d, f) == Get(e, f)
    ensures d == e
  {
    assert Get(d, Name) == Get(e, Name) && Get(d, Side) == Get(e, Side);
    assert Get(d, Attending) == Get(e, Attending) && Get(d, Guests) == Get(e, Guests);
    assert Get(d, Message) == Get(e, Message);
  }

  /** Writing a field twice keeps the last value; writing back a field's own value changes nothing. */
  lemma {:induction false} UpdateLastWriteWins(d: FormData, f: Field, v: string, w: string)
    ensures Update(Update(d, f, v), f, w) == Update(d, f, w)
    ensures Update(d, f, Get(d, f)) == d
  {
    FieldsDetermineRecord(Update(Update(d, f, v), f, w), Update(d, f, w));
    FieldsDetermineRecord(Update(d, f, Get(d, f)), d);
  }

  /** The presence check of `handleSubmit`: every required field is non-empty (JavaScript truthiness of a string). */
  predicate RequiredPresent(d: FormData) {
    forall f :: f in Required ==> Get(d, f) != ""
  }

  /** The check rejects exactly when the name, the side or the attendance is empty. */
  lemma RequiredPresentFields(d: FormData)
    ensures RequiredPresent(d) <==> d.name != "" && d.side != "" && d.attending != ""
  {
    if d.name != "" && d.side != "" && d.attending != "" {
      forall f | f in Required ensures Get(d, f) != "" {
      }
    } else {
      assert Name in Required && Side in Required && Attending in Required;
    }
  }

  /** The guest count and the message are optional: editing them never changes whether a submit passes. */
  lemma OptionalFieldsIgnored(d: FormData, f: Field, v: string)
    requires f !in Required
    ensures RequiredPresent(Update(d, f, v)) == RequiredPresent(d)
  {
    RequiredPresentFields(d);
    RequiredPresentFields(Update(d, f, v));
  }

  /** Once both radio groups are chosen, whatever the choices, the check passes exactly when a name is typed. */
  lemma RadioChoicesPass(d: FormData)
    requires d.side in {GroomSide, BrideSide} && d.attending in {Attend, Decline}
    ensures RequiredPresent(d) <==> d.name != ""
  {
    RequiredPresentFields(d);
  }

  /** The guest-count selector is in the form exactly when "attend" is chosen. */
  predicate GuestSelectorShown(d: FormData) {
    d.attending == Attend
  }

  /** The values the guest-count selector offers, one to five. */
  function GuestOptions(): (opts: seq<string>)
    ensures |opts| == 5
    ensures forall k :: 0 <= k < 5 ==> opts[k] == [('1' as int + k) as char]
  {
    ["1", "2", "3", "4", "5"]
  }

  // ---------------------------------------------------------------------------
  // The three-phase state machine
  // ---------------------------------------------------------------------------

  datatype RsvpState = RsvpState(data: FormData, isSubmitting: bool, isSubmitted: bool)

  /** The state on page load: empty fields, one guest, neither flag set. */
  function Initial(): RsvpState {
    RsvpState(FormData("", "", "", "1", ""), false, false)
  }

  datatype Phase = Idle | Submitting | Submitted

  /** The phase the flags encode. */
  function PhaseOf(s: RsvpState): Phase {
    if s.isSubmitted then Submitted else if s.isSubmitting then Submitting else Idle
  }

  /** The flags never both hold in a reachable state. */
  predicate Valid(s: RsvpState) {
    !(s.isSubmitting && s.isSubmitted)
  }

  /** `handleChange` for the control named `f` reporting value `v`. */
  function Change(s: RsvpState, f: Field, v: string): RsvpState {
    s.(data := Update(s.data, f, v))
  }

  /**
   * `handleSubmit`: rejected (with an alert, and the form post prevented) when a
   * required field is empty; otherwise the post goes out and sending starts.
   */
  function Submit(s: RsvpState): (r: RsvpState)
    ensures !RequiredPresent(s.data) ==> r == s
    ensures RequiredPresent(s.data) ==> r.isSubmitting && r.data == s.data && r.isSubmitted == s.isSubmitted
  {
    if RequiredPresent(s.data) then s.(isSubmitting := true) else s
  }

  /** The timer callback two seconds after an accepted submit. */
  function Complete(s: RsvpState): (r: RsvpState)
    ensures PhaseOf(r) == Submitted && r.data == s.data
    ensures Valid(r)
  {
    s.(isSubmitting := false, isSubmitted := true)
  }

  /** What the section renders. */
  datatype View = ThankYou | Form(guestSelector: bool, submitDisabled: bool)

  function ViewOf(s: RsvpState): (v: View)
    ensures v == ThankYou <==> s.isSubmitted
    ensures v.Form? ==> (v.guestSelector <==> s.data.attending == Attend)
    ensures v.Form? ==> (v.submitDisabled <==> s.isSubmitting)
  {
    if s.isSubmitted then ThankYou else Form(GuestSelectorShown(s.data), s.isSubmitting)
  }

  /** The submit button is on the page and enabled. */
  predicate SubmitEnabled(s: RsvpState) {
    ViewOf(s).Form? && !ViewOf(s).submitDisabled
  }

  /** What the user and the timer can do. */
  datatype Event = Edit(field: Field, value: string) | PressSubmit | TimerFires

  /**
   * One event as the page delivers it: the controls exist only while the form is
   * rendered, a press reaches `handleSubmit` only through an enabled button, and the
   * completion timer is pending exactly while sending.
   */
  function Step(s: RsvpState, e: Event): RsvpState {
    match e
    case Edit(f, v) => if ViewOf(s).Form? then Change(s, f, v) else s
    case PressSubmit => if SubmitEnabled(s) then Submit(s) else s
    case TimerFires => if s.isSubmitting then Complete(s) else s
  }

  function Run(s: RsvpState, events: seq<Event>): RsvpState
    decreases |events|
  {
    if events == [] then s else Run(Step(s, events[0]), events[1..])
  }

  // ---------------------------------------------------------------------------
  // Properties
  // ---------------------------------------------------------------------------

  lemma InitialIsIdle()
    ensures PhaseOf(Initial()) == Idle && Valid(Initial())
    ensures Initial().data.name == "" && Initial().data.side == "" && Initial().data.attending == ""
    ensures !RequiredPresent(Initial().data)
    ensures Initial().data.guests == GuestOptions()[0]
  {
    RequiredPresentFields(Initial().data);
  }

  /** A submit with a required field missing changes nothing; one with all of them present starts sending. */
  lemma SubmitGuard(s: RsvpState)
    requires PhaseOf(s) == Idle
    ensures Step(s, PressSubmit) == s <==> (s.data.name == "" || s.data.side == "" || s.data.attending == "")
    ensures Step(s, PressSubmit) != s ==> PhaseOf(Step(s, PressSubmit)) == Submitting
  {
    RequiredPresentFields(s.data);
  }

  /** While sending, pressing submit again does nothing: the button is disabled. */
  lemma NoSecondSubmit(s: RsvpState)
    requires PhaseOf(s) == Submitting
    ensures Step(s, PressSubmit) == s
    ensures ViewOf(s) == Form(s.data.attending == Attend, true)
  {
  }

  lemma StepPreservesValid(s: RsvpState, e: Event)
    requires Valid(s)
    ensures Valid(Step(s, e))
  {
  }

  /** Phases only move forward: idle, then sending, then submitted. */
  lemma StepPhaseForward(s: RsvpState, e: Event)
    requires Valid(s)
    ensures PhaseOf(s) == Submitting ==> PhaseOf(Step(s, e)) != Idle
    ensures PhaseOf(s) == Idle ==> PhaseOf(Step(s, e)) != Submitted
  {
  }

  /** Every state reached from the initial one by any sequence of events is valid. */
  lemma {:induction false} RunPreservesValid(s: RsvpState, events: seq<Event>)
    requires Valid(s)
    ensures Valid(Run(s, events))
    decreases |events|
  {
    if events != [] {
      StepPreservesValid(s, events[0]);
      RunPreservesValid(Step(s, events[0]), events[1..]);
    }
  }

  /** Submitted is terminal: once the thank-you view shows, no event changes anything. */
  lemma {:induction false} SubmittedIsTerminal(s: RsvpState, events: seq<Event>)
    requires Valid(s) && s.isSubmitted
    ensures Run(s, events) == s
    ensures ViewOf(Run(s, events)) == ThankYou
    decreases |events|
  {
    if events != [] {
      assert Step(s, events[0]) == s;
      SubmittedIsTerminal(s, events[1..]);
    }
  }

  /** A run that never submits never leaves the form, and does not reach sending either. */
  lemma {:induction false} NoSubmitStaysIdle(s: RsvpState, events: seq<Event>)
    requires PhaseOf(s) == Idle
    requires forall k :: 0 <= k < |events| ==> events[k] != PressSubmit
    ensures PhaseOf(Run(s, events)) == Idle
    decreases |events|
  {
    if events != [] {
      assert events[0] != PressSubmit;
      NoSubmitStaysIdle(Step(s, events[0]), events[1..]);
    }
  }

  // ---------------------------------------------------------------------------
  // The component with its state in fields
  // ---------------------------------------------------------------------------

  class RsvpForm {
    var formData: FormData
    var isSubmitting: bool
    var isSubmitted: bool

    function State(): RsvpState
      reads this
    {
      RsvpState(formData, isSubmitting, isSubmitted)
    }

    constructor ()
      ensures State() == Initial()
      ensures PhaseOf(State()) == Idle
    {
      formData := FormData("", "", "", "1", "");
      isSubmitting, isSubmitted := false, false;
    }

    /** `handleChange`: field `f` takes the control's value; the flags do not move. */
    method HandleChange(f: Field, v: string)
      requires Valid(State()) && ViewOf(State()).Form?
      modifies this
      ensures State() == Change(old(State()), f, v)
      ensures Valid(State()) && PhaseOf(State()) == PhaseOf(old(State()))
    {
      formData := Update(formData, f, v);
    }

    /** `handleSubmit`; `accepted` is false when the post was prevented for a missing field. */
    method HandleSubmit() returns (accepted: bool)
      requires Valid(State()) && SubmitEnabled(State())
      modifies this
      ensures Valid(State())
      ensures PhaseOf(State()) == if accepted then Submitting else Idle
      ensures accepted <==> (old(formData.name) != "" && old(formData.side) != "" && old(formData.attending) != "")
      ensures State() == Submit(old(State()))
    {
      RequiredPresentFields(formData);
      if formData.name == "" || formData.side == "" || formData.attending == "" {
        return false;
      }
      isSubmitting := true;
      accepted := true;
    }

    /** The completion timer: sending ends and the thank-you view replaces the form. */
    method CompleteSubmission()
      requires Valid(State()) && isSubmitting
      modifies this
      ensures State() == Complete(old(State()))
      ensures Valid(State()) && PhaseOf(State()) == Submitted
    {
      isSubmitting := false;
      isSubmitted := true;
    }

    /** Whether the submit button is on the page and disabled. */
    function SubmitDisabled(): (disabled: bool)
      reads this
      ensures Valid(State()) ==> (disabled <==> PhaseOf(State()) == Submitting)
    {
      ViewOf(State()).Form? && ViewOf(State()).submitDisabled
    }
  }
}
