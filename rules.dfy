/**
 The field validator of `validateInput`: one step per validation rule (the
 `switch` of the rule loop), and the loop itself, which evaluates the rules in
 order, collects the messages that are pushed and stops after the first rule
 that fails.
 */
module Rules {
  import opened Wrappers
  import opened Text

  /**
   One key of a field's `validationRules` object, in the object's key order.
   The switch looks only at the key, so the value of `required` and `isEmail`
   does not influence validation; the form-validity check reads `required`'s.
   A closed datatype: no unknown key can reach the `default` branch.
   The keys of a JavaScript object are unique, so a rule list taken from one
   holds each kind of rule at most once; the model does not need that.
   */
  datatype Rule = Required(flag: bool) | IsEmail(flag: bool) | Decimals(limit: int)

  /** What one rule does: whether it keeps the field valid, and the message it pushes, if any. */
  datatype Step = Step(pass: bool, message: Option<string>)

  const InvalidEmail := "Not a valid email"

  function RequiredMessage(name: string): string {
    name + " is required"
  }

  function DecimalsMessage(limit: int): string {
    "Only " + IntToString(limit) + " decimals are allowed"
  }

  /**
   The `decimals` case. `(dotIndex || commaIndex) === -1` takes `commaIndex`
   only when `dotIndex` is 0, the one falsy index; a comma index, when there
   is one, overwrites the verdict of the dot index; the count of decimals is
   every character after the separator.
   */
  function DecimalsCheck(value: string, limit: int): (r: Step)
    ensures '.' !in value ==> r == Step(true, None)
    ensures r.message.Some? ==> r.message == Some(DecimalsMessage(limit))
    ensures !r.pass ==> r.message.Some?
  {
    var dotIndex := IndexOf(value, '.');
    var commaIndex := IndexOf(value, ',');
    var isInteger := (if dotIndex != 0 then dotIndex else commaIndex) == -1;
    if isInteger then Step(true, None)
    else
      var byDot := dotIndex != -1 && |value| - 1 - dotIndex <= limit;
      var areDecimalsValid := if commaIndex != -1 then |value| - 1 - commaIndex <= limit else byDot;
      Step(areDecimalsValid, Some(DecimalsMessage(limit)))
  }

  /** One pass through the rule `switch` for the field `name` holding `value`. */
  function Check(name: string, value: string, rule: Rule, emailShape: string -> bool): Step {
    match rule
    case Required(_) => Step(Trim(value) != "", Some(RequiredMessage(name)))
    case IsEmail(_) =>
      if Trim(value) == "" then Step(true, None)
      else Step(emailShape(value), Some(InvalidEmail))
    case Decimals(limit) => DecimalsCheck(value, limit)
  }

  // ---------------------------------------------------------------------------
  // What each rule does, stated without the switch's control flow.

  /** `required` fails exactly on a value that is blank, and always pushes its message. */
  lemma RequiredRule(name: string, value: string, flag: bool, emailShape: string -> bool)
    ensures Check(name, value, Required(flag), emailShape) == Step(!IsBlank(value), Some(RequiredMessage(name)))
  {
    TrimEmptyIffBlank(value);
  }

  /** `isEmail` lets a blank value through without a message; otherwise it is the pattern's verdict. */
  lemma EmailRule(name: string, value: string, flag: bool, emailShape: string -> bool)
    ensures IsBlank(value) ==> Check(name, value, IsEmail(flag), emailShape) == Step(true, None)
    ensures !IsBlank(value) ==>
      Check(name, value, IsEmail(flag), emailShape) == Step(emailShape(value), Some(InvalidEmail))
  {
    TrimEmptyIffBlank(value);
  }

  /** A value with no `.` counts as an integer, whatever commas it holds: it passes silently. */
  lemma DecimalsWithoutDot(value: string, limit: int)
    requires '.' !in value
    ensures DecimalsCheck(value, limit) == Step(true, None)
  {
  }

  /** A value that starts with `.` and holds no `,` also counts as an integer. */
  lemma DecimalsLeadingDot(value: string, limit: int)
    requires |value| > 0 && value[0] == '.' && ',' !in value
    ensures DecimalsCheck(value, limit) == Step(true, None)
  {
  }

  /** With a `.` after the first character and no `,`, everything after the first `.` is counted. */
  lemma DecimalsDotOnly(value: string, limit: int)
    requires IndexOf(value, '.') > 0 && ',' !in value
    ensures DecimalsCheck(value, limit) ==
      Step(|value| - 1 - IndexOf(value, '.') <= limit, Some(DecimalsMessage(limit)))
  {
  }

  /** With both a `.` and a `,`, the first `,` decides and the `.` is ignored. */
  lemma DecimalsCommaWins(value: string, limit: int)
    requires '.' in value && ',' in value
    ensures DecimalsCheck(value, limit) ==
      Step(|value| - 1 - IndexOf(value, ',') <= limit, Some(DecimalsMessage(limit)))
  {
  }

  /** "12" passes any limit, "12.345" passes exactly the limits from 3 up, and "12,34" passes every limit. */
  lemma DecimalsExamples(limit: int)
    ensures DecimalsCheck("12", limit).pass
    ensures DecimalsCheck("12.345", limit).pass <==> limit >= 3
    ensures DecimalsCheck("12,34", limit).pass
  {
    DecimalsWithoutDot("12", limit);
    DecimalsWithoutDot("12,34", limit);
    assert "12.345"[2] == '.';
    assert "12.345"[..2] == "12";
    DecimalsDotOnly("12.345", limit);
  }

  /** A rule that fails always pushes a message. */
  lemma FailingStepPushes(name: string, value: string, rule: Rule, emailShape: string -> bool)
    requires !Check(name, value, rule, emailShape).pass
    ensures Check(name, value, rule, emailShape).message.Some?
  {
  }

  /** Only a passing `isEmail` or `decimals` rule leaves the message array alone. */
  lemma SilentStepPasses(name: string, value: string, rule: Rule, emailShape: string -> bool)
    requires Check(name, value, rule, emailShape).message.None?
    ensures Check(name, value, rule, emailShape).pass && !rule.Required?
  {
  }

  // ---------------------------------------------------------------------------
  // The rule loop.

  /** Every rule lets the value through. */
  predicate AllPass(name: string, value: string, rules: seq<Rule>, emailShape: string -> bool) {
    forall j :: 0 <= j < |rules| ==> Check(name, value, rules[j], emailShape).pass
  }

  /** The index of the first rule that fails, or `|rules|` when none does. */
  function FirstFailure(name: string, value: string, rules: seq<Rule>, emailShape: string -> bool): (k: nat)
    ensures k <= |rules|
    ensures forall j :: 0 <= j < k ==> Check(name, value, rules[j], emailShape).pass
    ensures k < |rules| ==> !Check(name, value, rules[k], emailShape).pass
  {
    if rules == [] || !Check(name, value, rules[0], emailShape).pass then 0
    else
      var k := FirstFailure(name, value, rules[1..], emailShape);
      assert forall j :: 1 <= j <= |rules| - 1 ==> rules[j] == rules[1..][j - 1];
      1 + k
  }

  /** How many rules the loop evaluates: up to and including the first failing one. */
  function Evaluated(name: string, value: string, rules: seq<Rule>, emailShape: string -> bool): nat {
    var k := FirstFailure(name, value, rules, emailShape);
    if k < |rules| then k + 1 else k
  }

  /** The message a step pushes onto the array, as a sequence of zero or one messages. */
  function Pushes(step: Step): seq<string> {
    if step.message.Some? then [step.message.value] else []
  }

  /** The messages pushed by `rules`, in rule order. */
  function Pushed(name: string, value: string, rules: seq<Rule>, emailShape: string -> bool): (ms: seq<string>)
    ensures |ms| <= |rules|
  {
    if rules == [] then []
    else
      Pushed(name, value, rules[..|rules| - 1], emailShape) + Pushes(Check(name, value, rules[|rules| - 1], emailShape))
  }

  /** `FirstFailure` is `|rules|` exactly when every rule passes. */
  lemma NoFailureIffAllPass(name: string, value: string, rules: seq<Rule>, emailShape: string -> bool)
    ensures AllPass(name, value, rules, emailShape) <==> FirstFailure(name, value, rules, emailShape) == |rules|
  {
  }

  /** Below the first failure, the rule at `i` is the first failure exactly when it fails. */
  lemma FirstFailureAt(name: string, value: string, rules: seq<Rule>, i: nat, emailShape: string -> bool)
    requires i < |rules| && i <= FirstFailure(name, value, rules, emailShape)
    ensures FirstFailure(name, value, rules, emailShape) == i <==> !Check(name, value, rules[i], emailShape).pass
  {
  }

  /** Evaluating one more rule appends that rule's message, if it pushes one. */
  lemma PushedStep(name: string, value: string, rules: seq<Rule>, i: nat, emailShape: string -> bool)
    requires i < |rules|
    ensures Pushed(name, value, rules[..i + 1], emailShape) ==
      Pushed(name, value, rules[..i], emailShape) + Pushes(Check(name, value, rules[i], emailShape))
  {
    assert rules[..i + 1][..i] == rules[..i];
  }

  /**
   The loop of `validateInput`: `isValid` is whether every rule passes, and
   the message array holds what the rules up to the first failure pushed.
   */
  method RunRules(name: string, value: string, rules: seq<Rule>, emailShape: string -> bool)
    returns (isValid: bool, errorMassage: seq<string>)
    ensures isValid == AllPass(name, value, rules, emailShape)
    ensures errorMassage == Pushed(name, value, rules[..Evaluated(name, value, rules, emailShape)], emailShape)
  {
    ghost var k := FirstFailure(name, value, rules, emailShape);
    NoFailureIffAllPass(name, value, rules, emailShape);
    isValid := true;
    errorMassage := [];
    var i := 0;
    while i < |rules|
      invariant 0 <= i <= k
      invariant isValid
      invariant errorMassage == Pushed(name, value, rules[..i], emailShape)
    {
      var step := Check(name, value, rules[i], emailShape);
      isValid := isValid && step.pass;
      if step.message.Some? {
        errorMassage := errorMassage + [step.message.value];
      }
      PushedStep(name, value, rules, i, emailShape);
      FirstFailureAt(name, value, rules, i, emailShape);
      i := i + 1;
      if !isValid {
        break;
      }
    }
    assert rules[..|rules|] == rules;
  }

  /** When validation fails, the error text ends with the message of the rule that failed. */
  lemma FailureMessageLast(name: string, value: string, rules: seq<Rule>, emailShape: string -> bool)
    requires !AllPass(name, value, rules, emailShape)
    ensures var k := FirstFailure(name, value, rules, emailShape);
      var m := Check(name, value, rules[k], emailShape).message;
      var text := Join(Pushed(name, value, rules[..Evaluated(name, value, rules, emailShape)], emailShape), ", ");
      k < |rules| && m.Some? && |m.value| <= |text| && text[|text| - |m.value|..] == m.value
  {
    var k := FirstFailure(name, value, rules, emailShape);
    FailingStepPushes(name, value, rules[k], emailShape);
    NoFailureIffAllPass(name, value, rules, emailShape);
    var m := Check(name, value, rules[k], emailShape).message.value;
    var before := Pushed(name, value, rules[..k], emailShape);
    assert rules[..k + 1][..k] == rules[..k];
    assert Pushed(name, value, rules[..k + 1], emailShape) == before + [m];
    JoinSnoc(before, m, ", ");
  }

  /**
   `required` then `isEmail` on a non-blank value that is not an e-mail: the
   field is invalid and its error text holds the message of the rule that
   passed as well as the one that failed.
   */
  lemma PassedRuleMessageKept(name: string, value: string, emailShape: string -> bool)
    requires !IsBlank(value) && !emailShape(value)
    ensures var rules := [Required(true), IsEmail(true)];
      && !AllPass(name, value, rules, emailShape)
      && Join(Pushed(name, value, rules[..Evaluated(name, value, rules, emailShape)], emailShape), ", ")
         == RequiredMessage(name) + ", " + InvalidEmail
  {
    var rules := [Required(true), IsEmail(true)];
    RequiredRule(name, value, true, emailShape);
    EmailRule(name, value, true, emailShape);
    assert FirstFailure(name, value, rules, emailShape) == 1;
    assert rules[..2] == rules;
    assert rules[..2][..1] == [Required(true)];
    assert [Required(true), IsEmail(true)][..1][..0] == [];
  }

  /** A `required` rule on a blank value makes the field invalid, wherever the rule stands. */
  lemma RequiredBlankInvalid(name: string, value: string, rules: seq<Rule>, emailShape: string -> bool)
    requires exists j :: 0 <= j < |rules| && rules[j].Required?
    requires IsBlank(value)
    ensures !AllPass(name, value, rules, emailShape)
  {
    var j :| 0 <= j < |rules| && rules[j].Required?;
    RequiredRule(name, value, rules[j].flag, emailShape);
  }
}
