/**
 * The registration form: the patient record and its single-field edits, the
 * symptom checklist, the three-page wizard and the cycling loading message
 * shown after "Complete Registration". React state hooks become explicit
 * `Form` values and every click or timer tick becomes a `FormEvent`.
 */
module Onboarding {
  import JsMath

  /** The patient record the form edits: six text fields and the selected symptom ids. */
  datatype PatientData = PatientData(
    name: string,
    age: string,
    gender: string,
    aadhaar: string,
    address: string,
    contact: string,
    symptoms: seq<string>)

  /** The record the page starts with: every text field empty, no symptom selected. */
  const EmptyPatient := PatientData("", "", "", "", "", "", [])

  /** The text fields the inputs edit through `handleInputChange`. */
  datatype Field = Name | Age | Gender | Aadhaar | Address | Contact

  /** The value of text field `f` of `p`. */
  function Get(p: PatientData, f: Field): string {
    match f
    case Name => p.name
    case Age => p.age
    case Gender => p.gender
    case Aadhaar => p.aadhaar
    case Address => p.address
    case Contact => p.contact
  }

  /** `handleInputChange(field, value)`: `field` now reads `value`; every other field and the symptoms are kept. */
  function UpdateField(p: PatientData, field: Field, value: string): (r: PatientData)
    ensures Get(r, field) == value
    ensures forall g :: g != field ==> Get(r, g) == Get(p, g)
    ensures r.symptoms == p.symptoms
  {
    match field
    case Name => p.(name := value)
    case Age => p.(age := value)
    case Gender => p.(gender := value)
    case Aadhaar => p.(aadhaar := value)
    case Address => p.(address := value)
    case Contact => p.(contact := value)
  }

  /** Writing back the value a field already holds changes nothing. */
  lemma UpdateFieldSameValue(p: PatientData, field: Field)
    ensures UpdateField(p, field, Get(p, field)) == p
  {
  }

  /** Of two edits of the same field, the later one wins. */
  lemma UpdateFieldLastWins(p: PatientData, field: Field, first: string, second: string)
    ensures UpdateField(UpdateField(p, field, first), field, second) == UpdateField(p, field, second)
  {
  }

  /** Edits of different fields do not interfere, so their order does not matter. */
  lemma UpdateFieldsCommute(p: PatientData, f: Field, g: Field, u: string, v: string)
    requires f != g
    ensures UpdateField(UpdateField(p, f, u), g, v) == UpdateField(UpdateField(p, g, v), f, u)
  {
  }

  /** The checklist's symptom ids, in display order. */
  const SymptomIds: seq<string> := ["fever", "cough", "cold", "headache", "fatigue", "nausea"]

  /** No id appears twice in `s`. */
  predicate Distinct(s: seq<string>) {
    forall i, j :: 0 <= i < j < |s| ==> s[i] != s[j]
  }

  /** `filter((s) => s !== id)`: `s` with every occurrence of `id` dropped and the rest kept. */
  function RemoveAll(s: seq<string>, id: string): (r: seq<string>)
    ensures forall x :: multiset(r)[x] == if x == id then 0 else multiset(s)[x]
    ensures forall x :: x in r <==> x in s && x != id
    decreases |s|
  {
    if s == [] then []
    else
      assert s == [s[0]] + s[1..];
      (if s[0] == id then [] else [s[0]]) + RemoveAll(s[1..], id)
  }

  /** Removal works element by element, so it keeps the order of what it keeps: it distributes over concatenation. */
  lemma {:induction false} RemoveAllAppend(a: seq<string>, b: seq<string>, id: string)
    ensures RemoveAll(a + b, id) == RemoveAll(a, id) + RemoveAll(b, id)
    decreases |a|
  {
    if a != [] {
      assert (a + b)[1..] == a[1..] + b;
      RemoveAllAppend(a[1..], b, id);
    } else {
      assert a + b == b;
    }
  }

  /** Removing an id that is absent returns the list unchanged. */
  lemma {:induction false} RemoveAllAbsent(s: seq<string>, id: string)
    requires id !in s
    ensures RemoveAll(s, id) == s
    decreases |s|
  {
    if s != [] {
      assert s == [s[0]] + s[1..];
      RemoveAllAbsent(s[1..], id);
    }
  }

  /** Removal from a duplicate-free list leaves it duplicate-free. */
  lemma {:induction false} RemoveAllDistinct(s: seq<string>, id: string)
    requires Distinct(s)
    ensures Distinct(RemoveAll(s, id))
    decreases |s|
  {
    if s != [] {
      var tail := RemoveAll(s[1..], id);
      RemoveAllDistinct(s[1..], id);
      if s[0] != id {
        assert s[0] !in s[1..];
        assert multiset(tail)[s[0]] == 0;
        assert s[0] !in tail;
        assert RemoveAll(s, id) == [s[0]] + tail;
      }
    }
  }

  /**
   * `toggleSymptom` on the list: an id already selected is removed wherever
   * it occurs, any other id is appended behind the existing selection.
   */
  function ToggleSymptom(s: seq<string>, id: string): (r: seq<string>)
    ensures id in r <==> id !in s
    ensures forall x :: x != id ==> multiset(r)[x] == multiset(s)[x]
    ensures id !in s ==> |r| == |s| + 1 && r[..|s|] == s && r[|s|] == id
  {
    if id in s then RemoveAll(s, id) else s + [id]
  }

  /** Toggling an id that was not selected, twice, restores the original list exactly. */
  lemma {:induction false} ToggleTwiceRestores(s: seq<string>, id: string)
    requires id !in s
    ensures ToggleSymptom(ToggleSymptom(s, id), id) == s
  {
    RemoveAllAppend(s, [id], id);
    RemoveAllAbsent(s, id);
    assert RemoveAll([id], id) == [];
  }

  /** Toggling a selected id twice moves it to the end: it is removed, then appended once. */
  lemma ToggleTwiceMovesToEnd(s: seq<string>, id: string)
    requires id in s
    ensures ToggleSymptom(ToggleSymptom(s, id), id) == RemoveAll(s, id) + [id]
  {
  }

  /** Toggling keeps a duplicate-free selection duplicate-free. */
  lemma ToggleKeepsDistinct(s: seq<string>, id: string)
    requires Distinct(s)
    ensures Distinct(ToggleSymptom(s, id))
  {
    if id in s {
      RemoveAllDistinct(s, id);
    }
  }

  /** `toggleSymptom` on the record: only the symptom list changes. */
  function ToggleSymptomOf(p: PatientData, id: string): (r: PatientData)
    ensures forall f :: Get(r, f) == Get(p, f)
    ensures r.symptoms == ToggleSymptom(p.symptoms, id)
  {
    p.(symptoms := ToggleSymptom(p.symptoms, id))
  }

  /** The wizard's page titles; their number fixes the step range. */
  const FormSteps: seq<string> := ["Personal Information", "Contact Details", "Current Symptoms"]

  /** Index of the last page, `formSteps.length - 1`. */
  const LastStep: int := |FormSteps| - 1

  /** The page on which the input for `f` is shown. */
  function StepOf(f: Field): int {
    match f
    case Name => 0
    case Age => 0
    case Gender => 0
    case Aadhaar => 1
    case Contact => 1
    case Address => 1
  }

  /** The page holding the symptom checklist. */
  const SymptomStep: int := 2

  function Max(a: int, b: int): int { if a < b then b else a }

  function Min(a: int, b: int): int { if a < b then a else b }

  /** "Previous": `Math.max(0, step - 1)`. */
  function PreviousStep(step: int): (r: int)
    ensures r >= 0
  {
    Max(0, step - 1)
  }

  /** "Next": `Math.min(formSteps.length - 1, step + 1)`. */
  function NextStep(step: int): (r: int)
    ensures r <= LastStep
  {
    Min(LastStep, step + 1)
  }

  /** The "Previous" button is disabled on the first page. */
  predicate PreviousDisabled(step: int) {
    step == 0
  }

  /** "Complete Registration" replaces "Next" unless `step < formSteps.length - 1`. */
  predicate OffersComplete(step: int) {
    !(step < LastStep)
  }

  /** Both navigation steps keep a valid page index valid; "Previous" on the first page stays there. */
  lemma StepsStayInRange(step: int)
    requires 0 <= step <= LastStep
    ensures 0 <= PreviousStep(step) <= LastStep
    ensures 0 <= NextStep(step) <= LastStep
    ensures PreviousStep(step) == (if step == 0 then 0 else step - 1)
    ensures NextStep(step) == (if step == LastStep then LastStep else step + 1)
  {
  }

  /** "Previous" undoes "Next" wherever "Next" is offered. */
  lemma PreviousUndoesNext(step: int)
    requires 0 <= step < LastStep
    ensures PreviousStep(NextStep(step)) == step
  {
  }

  /** "Next" undoes "Previous" wherever "Previous" is enabled. */
  lemma NextUndoesPrevious(step: int)
    requires 0 <= step <= LastStep && !PreviousDisabled(step)
    ensures NextStep(PreviousStep(step)) == step
  {
  }

  /** On a valid page, "Complete Registration" is offered on the last page and nowhere else. */
  lemma CompleteOnlyOnLastStep(step: int)
    requires 0 <= step <= LastStep
    ensures OffersComplete(step) <==> step == LastStep
  {
  }

  /** The five messages the loading screen cycles through. */
  const LoadingMessages: seq<string> := [
    "\U{23F3} Measuring your vitals, please hold still\U{2026}",
    "\U{1FA7A} Our system is checking your health details\U{2026}",
    "\U{1F493} Analyzing your heartbeat patterns\U{2026}",
    "\U{1F50D} Reviewing your medical information\U{2026}",
    "\U{2728} Preparing your personalized care plan\U{2026}"
  ]

  /** One tick of the loading interval: `(messageIndex + 1) % messages.length`; from a non-negative index it moves to the next message around the cycle. */
  function NextMessageIndex(i: int): (r: int)
    ensures 0 <= i ==> 0 <= r < |LoadingMessages| && r == (i + 1) % |LoadingMessages|
  {
    JsMath.Rem(i + 1, |LoadingMessages|)
  }

  /** A tick from the residue of `a` lands on the residue of `a + 1`. */
  lemma NextMessageIndexCounts(a: nat)
    ensures NextMessageIndex(a % |LoadingMessages|) == (a + 1) % |LoadingMessages|
  {
    assert |LoadingMessages| == 5;
    assert ((a % 5) + 1) % 5 == (a + 1) % 5;
  }

  /** The message index after `n` ticks of the interval started at `i`. */
  function MessageIndexAfter(i: int, n: nat): int
    decreases n
  {
    if n == 0 then i else NextMessageIndex(MessageIndexAfter(i, n - 1))
  }

  /** Starting from 0, after `n` ticks the screen shows message `n mod 5`: the messages repeat in order. */
  lemma {:induction false} MessageIndexCycles(n: nat)
    ensures MessageIndexAfter(0, n) == n % |LoadingMessages|
    decreases n
  {
    if n > 0 {
      MessageIndexCycles(n - 1);
      NextMessageIndexCounts(n - 1);
    }
  }

  /**
   * The form's state: the record, the wizard page, whether the loading
   * screen shows, its message index, and whether registration has
   * completed. When the loading timeout fires the page switches to the chat
   * tab and this instance of the form is unmounted, so a completed form
   * offers nothing more.
   */
  datatype Form = Form(patient: PatientData, step: int, loading: bool, messageIndex: int, completed: bool)

  /** The form as first rendered. */
  const InitialForm := Form(EmptyPatient, 0, false, 0, false)

  /** Everything that changes the form: input edits, checklist clicks, the buttons and the two timers. */
  datatype FormEvent =
    | Edit(field: Field, value: string)
    | Toggle(symptom: string)
    | Previous
    | Next
    | CompleteRegistration
    | MessageTick
    | LoadingFinished

  /**
   * Whether `e` can happen in `f`: its control is on screen and enabled, or
   * its timer is running. The loading screen replaces the form, so while it
   * shows only the two timers fire, and otherwise only form controls act.
   */
  predicate Offered(f: Form, e: FormEvent)
    ensures Offered(f, e) ==> !f.completed
    ensures Offered(f, e) ==> (f.loading <==> e.MessageTick? || e.LoadingFinished?)
  {
    match e
    case Edit(field, _) => !f.completed && !f.loading && StepOf(field) == f.step
    case Toggle(id) => !f.completed && !f.loading && f.step == SymptomStep && id in SymptomIds
    case Previous => !f.completed && !f.loading && !PreviousDisabled(f.step)
    case Next => !f.completed && !f.loading && !OffersComplete(f.step)
    case CompleteRegistration => !f.completed && !f.loading && OffersComplete(f.step)
    case MessageTick => !f.completed && f.loading
    case LoadingFinished => !f.completed && f.loading
  }

  /**
   * The state after `e`. Completing starts the loading screen at message 0;
   * the timeout ends it and completes the registration. Each event touches
   * only its own part of the state.
   */
  function Apply(f: Form, e: FormEvent): (r: Form)
    ensures e.Edit? || e.Toggle? || r.patient == f.patient
    ensures e.Edit? ==> r.patient.symptoms == f.patient.symptoms
    ensures e.Toggle? ==> forall g :: Get(r.patient, g) == Get(f.patient, g)
    ensures e.Previous? || e.Next? || r.step == f.step
    ensures e.CompleteRegistration? || e.LoadingFinished? || (r.loading == f.loading && r.completed == f.completed)
    ensures e.CompleteRegistration? || e.MessageTick? || r.messageIndex == f.messageIndex
  {
    match e
    case Edit(field, value) => f.(patient := UpdateField(f.patient, field, value))
    case Toggle(id) => f.(patient := ToggleSymptomOf(f.patient, id))
    case Previous => f.(step := PreviousStep(f.step))
    case Next => f.(step := NextStep(f.step))
    case CompleteRegistration => f.(loading := true, messageIndex := 0)
    case MessageTick => f.(messageIndex := NextMessageIndex(f.messageIndex))
    case LoadingFinished => f.(loading := false, completed := true)
  }

  /** Once the loading screen closes, this instance of the form offers nothing more, "Complete Registration" included. */
  lemma CompletionIsFinal(f: Form, e: FormEvent)
    requires Offered(f, LoadingFinished)
    ensures !Offered(Apply(f, LoadingFinished), e)
  {
  }

  /** Every selected symptom is a checklist id, selected once. */
  predicate WellFormedSymptoms(s: seq<string>) {
    Distinct(s) && forall x :: x in s ==> x in SymptomIds
  }

  /** The invariant of a reachable form: a valid page, a valid message index, a well-formed selection. */
  predicate Valid(f: Form) {
    && 0 <= f.step <= LastStep
    && 0 <= f.messageIndex < |LoadingMessages|
    && WellFormedSymptoms(f.patient.symptoms)
  }

  /** The loading message on screen, which is only rendered while loading; `Valid` guarantees the index is in range. */
  function CurrentLoadingMessage(f: Form): (m: string)
    requires Valid(f) && f.loading
    ensures m in LoadingMessages
  {
    LoadingMessages[f.messageIndex]
  }

  /** Every event the form offers keeps it valid. */
  lemma ApplyPreservesValid(f: Form, e: FormEvent)
    requires Valid(f) && Offered(f, e)
    ensures Valid(Apply(f, e))
  {
    if e.Toggle? {
      ToggleKeepsDistinct(f.patient.symptoms, e.symptom);
    }
  }

  // The carousel and the chat repeat this run-of-events pattern over their own states.

  /** The state after a sequence of events, each applied in turn. */
  function Run(f: Form, events: seq<FormEvent>): Form
    decreases |events|
  {
    if events == [] then f else Run(Apply(f, events[0]), events[1..])
  }

  /** Each event is offered in the state it meets. */
  predicate AllOffered(f: Form, events: seq<FormEvent>)
    decreases |events|
  {
    events == [] || (Offered(f, events[0]) && AllOffered(Apply(f, events[0]), events[1..]))
  }

  /** From a valid form, any run of offered events ends in a valid form. */
  lemma {:induction false} RunPreservesValid(f: Form, events: seq<FormEvent>)
    requires Valid(f) && AllOffered(f, events)
    ensures Valid(Run(f, events))
    decreases |events|
  {
    if events != [] {
      ApplyPreservesValid(f, events[0]);
      RunPreservesValid(Apply(f, events[0]), events[1..]);
    }
  }

  /** Every form reachable from the first render is valid. */
  lemma ReachableFormsValid(events: seq<FormEvent>)
    requires AllOffered(InitialForm, events)
    ensures Valid(Run(InitialForm, events))
  {
    RunPreservesValid(InitialForm, events);
  }
}
