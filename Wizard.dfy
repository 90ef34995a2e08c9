/**
 * `useWizard`: the current step, moved forward or back along the fixed
 * order of the eight steps, or set directly.
 */
module Wizard {
  import opened Types

  const StepOrder: seq<WizardStep> := [Init, Scope, Criteria, Loading, Select, Confirm, Execute, Summary]

  /** `STEP_ORDER.indexOf(step)`: every step is listed, so the index is always found. */
  function StepIndex(s: WizardStep): (i: nat)
    ensures i < |StepOrder| && StepOrder[i] == s
    ensures forall j :: 0 <= j < i ==> StepOrder[j] != s
  {
    match s
    case Init => 0
    case Scope => 1
    case Criteria => 2
    case Loading => 3
    case Select => 4
    case Confirm => 5
    case Execute => 6
    case Summary => 7
  }

  /** No step is listed twice, so the index of the step at a position is that position. */
  lemma OrderIsUnique(i: nat)
    requires i < |StepOrder|
    ensures StepIndex(StepOrder[i]) == i
  {
  }

  /** The step `nextStep` moves to: the following one, or the same at the end. */
  function NextOf(s: WizardStep): WizardStep {
    var i := StepIndex(s);
    if i < |StepOrder| - 1 then StepOrder[i + 1] else s
  }

  /** The step `prevStep` moves to: the preceding one, or the same at the start. */
  function PrevOf(s: WizardStep): WizardStep {
    var i := StepIndex(s);
    if i > 0 then StepOrder[i - 1] else s
  }

  /** Moving on advances one place in the order, except from `summary`, which stays. */
  lemma NextAdvances(s: WizardStep)
    ensures s == Summary <==> NextOf(s) == s
    ensures s != Summary ==> StepIndex(NextOf(s)) == StepIndex(s) + 1
  {
    if s != Summary {
      OrderIsUnique(StepIndex(s) + 1);
    }
  }

  /** Moving back retreats one place in the order, except from `init`, which stays. */
  lemma PrevRetreats(s: WizardStep)
    ensures s == Init <==> PrevOf(s) == s
    ensures s != Init ==> StepIndex(PrevOf(s)) + 1 == StepIndex(s)
  {
    if s != Init {
      OrderIsUnique(StepIndex(s) - 1);
    }
  }

  /** Back after forward restores every step but `summary`; forward after back restores every step but `init`. */
  lemma PrevUndoesNext(s: WizardStep)
    ensures s != Summary ==> PrevOf(NextOf(s)) == s
    ensures s != Init ==> NextOf(PrevOf(s)) == s
  {
    NextAdvances(s);
    PrevRetreats(s);
    if s != Summary {
      PrevRetreats(NextOf(s));
      OrderIsUnique(StepIndex(s));
    }
    if s != Init {
      NextAdvances(PrevOf(s));
      OrderIsUnique(StepIndex(s));
    }
  }

  /** Seven steps forward from `init` reach `summary`, passing every step in order. */
  lemma WalkForward()
    ensures NextOf(Init) == Scope && NextOf(Scope) == Criteria && NextOf(Criteria) == Loading
    ensures NextOf(Loading) == Select && NextOf(Select) == Confirm && NextOf(Confirm) == Execute
    ensures NextOf(Execute) == Summary
  {
  }

  /** The wizard's state: a single step. */
  class Wizard {
    var step: WizardStep

    /** `useWizard(initialStep)`, which the callers leave at its default, `init`. */
    constructor (initialStep: WizardStep)
      ensures step == initialStep
    {
      step := initialStep;
    }

    method NextStep()
      modifies this`step
      ensures step == NextOf(old(step))
    {
      var currentIndex := StepIndex(step);
      if currentIndex < |StepOrder| - 1 {
        step := StepOrder[currentIndex + 1];
      }
    }

    method PrevStep()
      modifies this`step
      ensures step == PrevOf(old(step))
    {
      var currentIndex := StepIndex(step);
      if currentIndex > 0 {
        step := StepOrder[currentIndex - 1];
      }
    }

    method GoToStep(newStep: WizardStep)
      modifies this`step
      ensures step == newStep
    {
      step := newStep;
    }
  }
}
