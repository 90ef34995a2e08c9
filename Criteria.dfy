/**
 * The criteria step: the four toggles, the prompt modes that collect the
 * stale-day count, the age-day count and the pattern, and the filter
 * options emitted at the end.  Numbers typed into the prompts are kept as
 * text, as `String(num)`, and read back with `parseInt`.
 */
module Criteria {
  import opened Text
  import opened Types
  import Config

  datatype InputMode = SelectMode | StaleDaysMode | AgeDaysMode | PatternMode

  const InvalidNumberMessage: string := "Please enter a valid number greater than 0"

  /** `validateNumber`: the parsed value when it is a number above zero. */
  function ValidateNumber(value: string): (r: Option<nat>)
    ensures r.Some? ==> r.value > 0
  {
    match ParseInt(value)
    case Some(n) => if n > 0 then Some(n) else None
    case None => None
  }

  /** Exactly the texts `parseInt` reads as a number above zero are accepted, as that number. */
  lemma ValidateNumberAccepts(value: string)
    ensures ValidateNumber(value).Some? <==> ParseInt(value).Some? && ParseInt(value).value > 0
    ensures ValidateNumber(value).Some? ==> ParseInt(value) == Some(ValidateNumber(value).value as int)
  {
  }

  /** A positive number written out is accepted as itself. */
  lemma ValidateRendered(n: nat)
    requires n > 0
    ensures ValidateNumber(NatToString(n)) == Some(n)
  {
    ParseNatToString(n, []);
    assert NatToString(n) + [] == NatToString(n);
  }

  /** Text, zero and negative numbers are refused; digits after leading blanks, a sign or a trailing tail are read. */
  lemma ValidateExamples()
    ensures ValidateNumber("abc") == None
    ensures ValidateNumber("0") == None
    ensures ValidateNumber("-5") == None
    ensures ValidateNumber("14 days") == Some(14)
  {
    assert !IsWhiteSpace('a') && !IsDigit('a');
    assert TrimStart("abc") == "abc";
    DigitIsNotWhiteSpace('0');
    assert TrimStart("0") == "0";
    assert DigitPrefix("0") == "0";
    assert TrimStart("-5") == "-5";
    assert "-5"[1..] == "5" && DigitPrefix("5") == "5";
    assert NatToString(14) == "14" by {
      assert NatToString(14 / 10) == "1";
    }
    assert "14 days" == NatToString(14) + " days";
    ParseNatToString(14, " days");
  }

  /** `parseInt(s, 10) || d`: the parsed number, unless it is NaN or zero. */
  function OrDefault(s: string, d: nat): int {
    match ParseInt(s)
    case Some(n) => if n != 0 then n else d
    case None => d
  }

  /** Whatever the prompts accept is read back unchanged: the default never replaces it. */
  lemma OrDefaultOfValid(s: string, d: nat)
    requires ValidateNumber(s).Some?
    ensures OrDefault(s, d) == ValidateNumber(s).value
  {
  }

  /** A negative number is not replaced by the default, NaN and zero are. */
  lemma OrDefaultExamples()
    ensures OrDefault("-3", 30) == -3
    ensures OrDefault("0", 30) == 30
    ensures OrDefault("", 30) == 30
  {
    DigitIsNotWhiteSpace('0');
    assert TrimStart("-3") == "-3";
    assert "-3"[1..] == "3" && DigitPrefix("3") == "3";
    assert TrimStart("0") == "0";
    assert DigitPrefix("0") == "0";
  }

  /** The filter options built from the chosen criteria and the three texts. */
  function FiltersFrom(criteria: seq<Criterion>, staleDays: string, ageDays: string, patternValue: string)
    : FilterOptions
  {
    FilterOptions(
      Merged in criteria,
      Stale in criteria,
      OrDefault(staleDays, Config.DefaultStaleDays),
      Pattern in criteria,
      patternValue,
      Age in criteria,
      OrDefault(ageDays, Config.DefaultAgeDays))
  }

  /** Each toggle is the membership of its criterion; the counts are the numbers written out; the pattern is kept verbatim. */
  lemma FiltersFromRendered(criteria: seq<Criterion>, staleDays: nat, ageDays: nat, patternValue: string)
    requires staleDays > 0 && ageDays > 0
    ensures FiltersFrom(criteria, NatToString(staleDays), NatToString(ageDays), patternValue)
            == FilterOptions(Merged in criteria, Stale in criteria, staleDays, Pattern in criteria,
                             patternValue, Age in criteria, ageDays)
  {
    ValidateRendered(staleDays);
    ValidateRendered(ageDays);
  }

  /** The defaults, as first shown in the prompts, are read back as 30 and 60. */
  lemma DefaultsReadBack(criteria: seq<Criterion>, patternValue: string)
    ensures var f := FiltersFrom(criteria, NatToString(Config.DefaultStaleDays),
                                 NatToString(Config.DefaultAgeDays), patternValue);
            f.staleDays == 30 && f.ageDays == 60
  {
    FiltersFromRendered(criteria, Config.DefaultStaleDays, Config.DefaultAgeDays, patternValue);
  }

  // ---------------------------------------------------------------------
  // The order of the prompts
  // ---------------------------------------------------------------------

  /**
   * Where a successful submission in `mode` leads: the next prompt, or
   * `None` when the filters are emitted.  From the list, Enter asks for the
   * stale days, else the pattern; the stale prompt goes on to the age days,
   * else the pattern; the age prompt goes on to the pattern.
   */
  function Advance(mode: InputMode, criteria: seq<Criterion>): Option<InputMode> {
    match mode
    case SelectMode =>
      if Stale in criteria then Some(StaleDaysMode)
      else if Pattern in criteria then Some(PatternMode)
      else None
    case StaleDaysMode =>
      if Age in criteria then Some(AgeDaysMode)
      else if Pattern in criteria then Some(PatternMode)
      else None
    case AgeDaysMode =>
      if Pattern in criteria then Some(PatternMode) else None
    case PatternMode => None
  }

  function Rank(mode: InputMode): nat {
    match mode
    case SelectMode => 0
    case StaleDaysMode => 1
    case AgeDaysMode => 2
    case PatternMode => 3
  }

  /** The prompts shown, in order, from `mode` on when every answer is accepted. */
  function Prompts(mode: InputMode, criteria: seq<Criterion>): (ps: seq<InputMode>)
    ensures SelectMode !in ps
    decreases 3 - Rank(mode)
  {
    match Advance(mode, criteria)
    case None => []
    case Some(next) =>
      assert Rank(next) > Rank(mode);
      [next] + Prompts(next, criteria)
  }

  /**
   * From the list, the stale prompt is shown when stale is chosen, the age
   * prompt only when stale and age are both chosen, and the pattern prompt
   * when pattern is chosen, in that order.
   */
  lemma PromptOrder(criteria: seq<Criterion>)
    ensures Prompts(SelectMode, criteria)
            == (if Stale in criteria then [StaleDaysMode] else [])
               + (if Stale in criteria && Age in criteria then [AgeDaysMode] else [])
               + (if Pattern in criteria then [PatternMode] else [])
  {
    var tail := if Pattern in criteria then [PatternMode] else [];
    assert Prompts(PatternMode, criteria) == [];
    assert Prompts(AgeDaysMode, criteria) == tail;
    if Stale in criteria {
      if Age in criteria {
        assert Prompts(StaleDaysMode, criteria) == [AgeDaysMode] + tail;
      } else {
        assert Prompts(StaleDaysMode, criteria) == tail;
      }
    }
  }

  /** With age chosen but not stale, no day count for the age is ever asked. */
  lemma AgeAloneIsNeverAsked(criteria: seq<Criterion>)
    requires Age in criteria && Stale !in criteria
    ensures AgeDaysMode !in Prompts(SelectMode, criteria)
  {
    PromptOrder(criteria);
  }

  /**
   * The checks of `handleSubmit`, in order: the input it asks for next, or
   * `None` when it emits.  They look at the mode it was called in.
   */
  function SubmitStep(mode: InputMode, criteria: seq<Criterion>): Option<InputMode> {
    if Stale in criteria && mode == SelectMode then Some(StaleDaysMode)
    else if Age in criteria && mode == StaleDaysMode then Some(AgeDaysMode)
    else if Pattern in criteria && mode == AgeDaysMode then Some(PatternMode)
    else if Pattern in criteria && mode == SelectMode then Some(PatternMode)
    else None
  }

  /**
   * From the list, `handleSubmit` follows the prompt order.  From a number
   * prompt it is reached only when that prompt has nothing further to ask,
   * and then it emits.
   */
  lemma SubmitStepFollowsPrompts(criteria: seq<Criterion>)
    ensures SubmitStep(SelectMode, criteria) == Advance(SelectMode, criteria)
    ensures Advance(StaleDaysMode, criteria).None? ==> SubmitStep(StaleDaysMode, criteria).None?
    ensures Advance(AgeDaysMode, criteria).None? ==> SubmitStep(AgeDaysMode, criteria).None?
    ensures SubmitStep(PatternMode, criteria).None?
  {
  }

  // ---------------------------------------------------------------------
  // What a number prompt emits when it is the last prompt
  // ---------------------------------------------------------------------

  /**
   * The stale prompt's submit as written: after a valid number, with
   * neither age nor pattern chosen, `handleSubmit` runs in the same handler
   * and reads the stale-day text from before the submission.
   */
  function StalePromptEmitsAsWritten(
    criteria: seq<Criterion>, staleDaysBefore: string, ageDays: string, patternValue: string, value: string)
    : Option<FilterOptions>
  {
    if ValidateNumber(value).None? || Age in criteria || Pattern in criteria then None
    else Some(FiltersFrom(criteria, staleDaysBefore, ageDays, patternValue))
  }

  /** Typing 7 at the stale prompt, with only stale chosen, emits 30 stale days. */
  lemma StaleValueLostAsWritten()
    ensures StalePromptEmitsAsWritten([Stale], NatToString(30), NatToString(60), "feature/*", NatToString(7))
            == Some(FilterOptions(false, true, 30, false, "feature/*", false, 60))
  {
    ValidateRendered(7);
    FiltersFromRendered([Stale], 30, 60, "feature/*");
  }

  /**
   * As written, the stale prompt emits exactly when the intended one does,
   * but its stale count is read from the earlier text: whenever that count
   * differs from the number just typed, the two emissions differ.
   */
  lemma StaleAsWrittenKeepsEarlierCount(
    criteria: seq<Criterion>, staleDaysBefore: string, ageDays: string, patternValue: string, value: string)
    ensures var w := StalePromptEmitsAsWritten(criteria, staleDaysBefore, ageDays, patternValue, value);
            && (w.Some? <==> StalePromptEmits(criteria, ageDays, patternValue, value).Some?)
            && (w.Some? ==> w.value.staleDays == OrDefault(staleDaysBefore, Config.DefaultStaleDays))
            && (w.Some? && OrDefault(staleDaysBefore, Config.DefaultStaleDays) != ValidateNumber(value).value
                ==> w != StalePromptEmits(criteria, ageDays, patternValue, value))
  {
  }

  /** The stale prompt's submit as intended: the emitted filters carry the number just typed. */
  function StalePromptEmits(criteria: seq<Criterion>, ageDays: string, patternValue: string, value: string)
    : (r: Option<FilterOptions>)
    ensures r.Some? <==> ValidateNumber(value).Some? && Age !in criteria && Pattern !in criteria
    ensures r.Some? ==> r.value.staleDays == ValidateNumber(value).value
  {
    match ValidateNumber(value)
    case None => None
    case Some(n) =>
      if Age in criteria || Pattern in criteria then None
      else
        ValidateRendered(n);
        Some(FiltersFrom(criteria, NatToString(n), ageDays, patternValue))
  }

  lemma StalePromptEmitsNumber(criteria: seq<Criterion>, ageDays: string, patternValue: string, value: string, n: nat)
    requires ValidateNumber(value) == Some(n)
    ensures Age !in criteria && Pattern !in criteria ==>
              StalePromptEmits(criteria, ageDays, patternValue, value) == Some(FiltersFrom(criteria, NatToString(n), ageDays, patternValue))
  {
  }

  /**
   * The age prompt's submit as written: after a valid number, without
   * pattern chosen, `handleSubmit` reads the age-day text from before the
   * submission.
   */
  function AgePromptEmitsAsWritten(
    criteria: seq<Criterion>, staleDays: string, ageDaysBefore: string, patternValue: string, value: string)
    : Option<FilterOptions>
  {
    if ValidateNumber(value).None? || Pattern in criteria then None
    else Some(FiltersFrom(criteria, staleDays, ageDaysBefore, patternValue))
  }

  /** Typing 90 at the age prompt, with stale and age chosen, emits 60 age days. */
  lemma AgeValueLostAsWritten()
    ensures AgePromptEmitsAsWritten([Stale, Age], NatToString(30), NatToString(60), "feature/*", NatToString(90))
            == Some(FilterOptions(false, true, 30, false, "feature/*", true, 60))
  {
    ValidateRendered(90);
    FiltersFromRendered([Stale, Age], 30, 60, "feature/*");
  }

  /**
   * As written, the age prompt emits exactly when the intended one does,
   * but its age count is read from the earlier text: whenever that count
   * differs from the number just typed, the two emissions differ.
   */
  lemma AgeAsWrittenKeepsEarlierCount(
    criteria: seq<Criterion>, staleDays: string, ageDaysBefore: string, patternValue: string, value: string)
    ensures var w := AgePromptEmitsAsWritten(criteria, staleDays, ageDaysBefore, patternValue, value);
            && (w.Some? <==> AgePromptEmits(criteria, staleDays, patternValue, value).Some?)
            && (w.Some? ==> w.value.ageDays == OrDefault(ageDaysBefore, Config.DefaultAgeDays))
            && (w.Some? && OrDefault(ageDaysBefore, Config.DefaultAgeDays) != ValidateNumber(value).value
                ==> w != AgePromptEmits(criteria, staleDays, patternValue, value))
  {
  }

  /** The age prompt's submit as intended: the emitted filters carry the number just typed. */
  function AgePromptEmits(criteria: seq<Criterion>, staleDays: string, patternValue: string, value: string)
    : (r: Option<FilterOptions>)
    ensures r.Some? <==> ValidateNumber(value).Some? && Pattern !in criteria
    ensures r.Some? ==> r.value.ageDays == ValidateNumber(value).value
  {
    match ValidateNumber(value)
    case None => None
    case Some(n) =>
      if Pattern in criteria then None
      else
        ValidateRendered(n);
        Some(FiltersFrom(criteria, staleDays, NatToString(n), patternValue))
  }

  lemma AgePromptEmitsNumber(criteria: seq<Criterion>, staleDays: string, patternValue: string, value: string, n: nat)
    requires ValidateNumber(value) == Some(n)
    ensures Pattern !in criteria ==>
              AgePromptEmits(criteria, staleDays, patternValue, value) == Some(FiltersFrom(criteria, staleDays, NatToString(n), patternValue))
  {
  }

  // ---------------------------------------------------------------------
  // The step's state
  // ---------------------------------------------------------------------

  /** A key the step reacts to outside its prompts. */
  datatype Key = Escape | Enter | OtherKey

  /** What the step hands to the wizard: nothing yet, a request to go back, or the filters. */
  datatype Emitted = NoEmit | Back | Emit(filters: FilterOptions)

  class CriteriaStep {
    var selectedCriteria: seq<Criterion>
    var inputMode: InputMode
    var staleDays: string
    var ageDays: string
    var pattern: string
    var inputError: Option<string>

    /** The numbers the two texts stand for. */
    ghost var staleCount: nat
    ghost var ageCount: nat

    /** The two number texts are always positive numbers written out. */
    ghost predicate Valid()
      reads this
    {
      staleCount > 0 && staleDays == NatToString(staleCount) && ageCount > 0 && ageDays == NatToString(ageCount)
    }

    constructor ()
      ensures Valid()
      ensures selectedCriteria == [] && inputMode == SelectMode && inputError == None
      ensures staleDays == NatToString(Config.DefaultStaleDays) && ageDays == NatToString(Config.DefaultAgeDays)
      ensures pattern == "feature/*"
    {
      selectedCriteria := [];
      inputMode := SelectMode;
      staleDays := NatToString(Config.DefaultStaleDays);
      ageDays := NatToString(Config.DefaultAgeDays);
      pattern := "feature/*";
      inputError := None;
      staleCount, ageCount := Config.DefaultStaleDays, Config.DefaultAgeDays;
    }

    /** Emitted filters always carry positive day counts: the fallbacks are never needed. */
    lemma EmitsPositiveDays()
      requires Valid()
      ensures FiltersFrom(selectedCriteria, staleDays, ageDays, pattern).staleDays > 0
      ensures FiltersFrom(selectedCriteria, staleDays, ageDays, pattern).ageDays > 0
    {
      ValidateRendered(staleCount);
      ValidateRendered(ageCount);
      OrDefaultOfValid(staleDays, Config.DefaultStaleDays);
      OrDefaultOfValid(ageDays, Config.DefaultAgeDays);
    }

    /** The list's change handler. */
    method ChangeCriteria(values: seq<Criterion>)
      modifies this`selectedCriteria
      ensures selectedCriteria == values
    {
      selectedCriteria := values;
    }

    /**
     * `handleSubmit`: asks for the next missing input when there is one,
     * otherwise emits the filters built from the current texts.
     */
    method HandleSubmit() returns (e: Emitted)
      modifies this`inputMode
      ensures match SubmitStep(old(inputMode), selectedCriteria)
              case Some(next) => inputMode == next && e == NoEmit
              case None => inputMode == old(inputMode) && e == Emit(FiltersFrom(selectedCriteria, staleDays, ageDays, pattern))
    {
      if Stale in selectedCriteria && inputMode == SelectMode {
        inputMode := StaleDaysMode;
        return NoEmit;
      }
      if Age in selectedCriteria && inputMode == StaleDaysMode {
        inputMode := AgeDaysMode;
        return NoEmit;
      }
      if Pattern in selectedCriteria && inputMode == AgeDaysMode {
        inputMode := PatternMode;
        return NoEmit;
      }
      if Pattern in selectedCriteria && inputMode == SelectMode {
        inputMode := PatternMode;
        return NoEmit;
      }
      e := Emit(FiltersFrom(selectedCriteria, staleDays, ageDays, pattern));
    }

    /** The step's key handler: Esc leaves a prompt for the list, or goes back from the list; Enter in the list submits. */
    method HandleKey(key: Key) returns (e: Emitted)
      modifies this`inputMode
      ensures key == Escape && old(inputMode) != SelectMode ==> inputMode == SelectMode && e == NoEmit
      ensures key == Escape && old(inputMode) == SelectMode ==> inputMode == SelectMode && e == Back
      ensures key == Enter && old(inputMode) == SelectMode ==>
                match Advance(SelectMode, selectedCriteria)
                case Some(next) => inputMode == next && e == NoEmit
                case None => inputMode == SelectMode && e == Emit(FiltersFrom(selectedCriteria, staleDays, ageDays, pattern))
      ensures (key == Enter && old(inputMode) != SelectMode) || key == OtherKey ==>
                inputMode == old(inputMode) && e == NoEmit
    {
      e := NoEmit;
      if key == Escape {
        if inputMode != SelectMode {
          inputMode := SelectMode;
        } else {
          e := Back;
        }
      } else if key == Enter && inputMode == SelectMode {
        SubmitStepFollowsPrompts(selectedCriteria);
        e := HandleSubmit();
      }
    }

    /**
     * The stale prompt's submit: an invalid number sets the error and stays;
     * a valid one is stored and leads on to the age or pattern prompt, or,
     * when neither is chosen, to the filters, which carry the new number.
     */
    method SubmitStaleDays(value: string) returns (e: Emitted)
      requires inputMode == StaleDaysMode && Valid()
      modifies this`inputMode, this`inputError, this`staleDays, this`staleCount
      ensures Valid()
      ensures ValidateNumber(value).None? ==>
                inputError == Some(InvalidNumberMessage) && inputMode == StaleDaysMode
                && staleDays == old(staleDays) && e == NoEmit
      ensures ValidateNumber(value).Some? ==>
                && inputError == None
                && staleDays == NatToString(ValidateNumber(value).value)
                && match Advance(StaleDaysMode, selectedCriteria)
                   case Some(next) => inputMode == next && e == NoEmit
                   case None => e.Emit? && StalePromptEmits(selectedCriteria, ageDays, pattern, value) == Some(e.filters)
                                && inputMode == StaleDaysMode
    {
      var num := ValidateNumber(value);
      if num.None? {
        inputError := Some(InvalidNumberMessage);
        return NoEmit;
      }
      var c, ageDays0, pattern0 := selectedCriteria, ageDays, pattern;
      StalePromptEmitsNumber(c, ageDays0, pattern0, value, num.value);
      e := AcceptStaleDays(num.value);
    }

    /** What the stale prompt does with an accepted number `n`: store it, then ask for the next input or emit. */
    method AcceptStaleDays(n: nat) returns (e: Emitted)
      requires n > 0 && inputMode == StaleDaysMode && Valid()
      modifies this`inputMode, this`inputError, this`staleDays, this`staleCount
      ensures Valid()
      ensures inputError == None && staleDays == NatToString(n)
      ensures match Advance(StaleDaysMode, selectedCriteria)
              case Some(next) => inputMode == next && e == NoEmit
              case None => e == Emit(FiltersFrom(selectedCriteria, NatToString(n), ageDays, pattern)) && inputMode == StaleDaysMode
    {
      inputError := None;
      staleDays := NatToString(n);
      staleCount := n;
      if Age in selectedCriteria {
        inputMode := AgeDaysMode;
        e := NoEmit;
      } else if Pattern in selectedCriteria {
        inputMode := PatternMode;
        e := NoEmit;
      } else {
        SubmitStepFollowsPrompts(selectedCriteria);
        e := HandleSubmit();
      }
    }

    /**
     * The age prompt's submit: an invalid number sets the error and stays;
     * a valid one is stored and leads on to the pattern prompt, or, without
     * pattern chosen, to the filters, which carry the new number.
     */
    method SubmitAgeDays(value: string) returns (e: Emitted)
      requires inputMode == AgeDaysMode && Valid()
      modifies this`inputMode, this`inputError, this`ageDays, this`ageCount
      ensures Valid()
      ensures ValidateNumber(value).None? ==>
                inputError == Some(InvalidNumberMessage) && inputMode == AgeDaysMode
                && ageDays == old(ageDays) && e == NoEmit
      ensures ValidateNumber(value).Some? ==>
                && inputError == None
                && ageDays == NatToString(ValidateNumber(value).value)
                && match Advance(AgeDaysMode, selectedCriteria)
                   case Some(next) => inputMode == next && e == NoEmit
                   case None => e.Emit? && AgePromptEmits(selectedCriteria, staleDays, pattern, value) == Some(e.filters)
                                && inputMode == AgeDaysMode
    {
      var num := ValidateNumber(value);
      if num.None? {
        inputError := Some(InvalidNumberMessage);
        return NoEmit;
      }
      var c, staleDays0, pattern0 := selectedCriteria, staleDays, pattern;
      AgePromptEmitsNumber(c, staleDays0, pattern0, value, num.value);
      e := AcceptAgeDays(num.value);
    }

    /** What the age prompt does with an accepted number `n`: store it, then ask for the next input or emit. */
    method AcceptAgeDays(n: nat) returns (e: Emitted)
      requires n > 0 && inputMode == AgeDaysMode && Valid()
      modifies this`inputMode, this`inputError, this`ageDays, this`ageCount
      ensures Valid()
      ensures inputError == None && ageDays == NatToString(n)
      ensures match Advance(AgeDaysMode, selectedCriteria)
              case Some(next) => inputMode == next && e == NoEmit
              case None => e == Emit(FiltersFrom(selectedCriteria, staleDays, NatToString(n), pattern)) && inputMode == AgeDaysMode
    {
      inputError := None;
      ageDays := NatToString(n);
      ageCount := n;
      if Pattern in selectedCriteria {
        inputMode := PatternMode;
        e := NoEmit;
      } else {
        SubmitStepFollowsPrompts(selectedCriteria);
        e := HandleSubmit();
      }
    }

    /** The pattern prompt's submit: the text is stored and emitted verbatim as the pattern. */
    method SubmitPattern(value: string) returns (e: Emitted)
      requires inputMode == PatternMode
      modifies this`pattern
      ensures pattern == value
      ensures e == Emit(FiltersFrom(selectedCriteria, staleDays, ageDays, value))
      ensures e.filters.patternValue == value
    {
      pattern := value;
      e := Emit(FiltersFrom(selectedCriteria, staleDays, ageDays, value));
    }
  }
}
