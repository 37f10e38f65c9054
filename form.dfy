/**
 The state of the event-creation form: the map from field name to field
 record (`elementsConfig`), the submit gate (`isFromValid`), the change
 handler, the blur-time validator and the effect that recomputes the gate.
 */
module FormContainer {
  import opened Wrappers
  import opened Text
  import opened Rules

  /**
   One entry of `elementsConfig`. The rendering metadata (element type,
   label, element config, label visibility) is not modelled.
   */
  datatype FieldConfig = FieldConfig(
    value: string,
    valid: bool,
    touched: bool,
    errorMassage: string,
    validationRules: Option<seq<Rule>>)

  /**
   The record the change handler creates for a name the map does not hold:
   only `value` is set; the properties left `undefined` are read as false,
   as the empty message and as "no rules".
   */
  function ValueOnly(value: string): FieldConfig {
    FieldConfig(value, false, false, "", None)
  }

  /** `validationRules && validationRules.required`. */
  predicate IsRequired(rules: Option<seq<Rule>>) {
    rules.Some? && Required(true) in rules.value
  }

  /** What the form-validity effect asks of one field. */
  predicate FieldReady(field: FieldConfig) {
    field.valid && (IsRequired(field.validationRules) ==> field.touched)
  }

  /** The submit gate: every field is valid, and touched as well when it is required. */
  predicate FormValid(elementsConfig: map<string, FieldConfig>) {
    forall key :: key in elementsConfig ==> FieldReady(elementsConfig[key])
  }

  /** The field as `validateInput` writes it back after running `rules` over its value. */
  function ValidatedField(field: FieldConfig, name: string, rules: seq<Rule>, emailShape: string -> bool): (r: FieldConfig)
    ensures r.value == field.value && r.validationRules == field.validationRules && r.touched
    ensures r.valid <==> FirstFailure(name, field.value, rules, emailShape) == |rules|
  {
    NoFailureIffAllPass(name, field.value, rules, emailShape);
    var evaluated := rules[..Evaluated(name, field.value, rules, emailShape)];
    field.(valid := AllPass(name, field.value, rules, emailShape),
           touched := true,
           errorMassage := Join(Pushed(name, field.value, evaluated, emailShape), ", "))
  }

  /**
   The loop of the form-validity effect. The keys are visited in some order
   and the loop stops at the first field that is not ready; the verdict does
   not depend on the order.
   */
  method CheckFields(elementsConfig: map<string, FieldConfig>) returns (isValid: bool)
    ensures isValid == FormValid(elementsConfig)
  {
    isValid := true;
    var pending := elementsConfig.Keys;
    while pending != {}
      invariant pending <= elementsConfig.Keys
      invariant isValid
      invariant forall key :: key in elementsConfig && key !in pending ==> FieldReady(elementsConfig[key])
      decreases pending
    {
      var key :| key in pending;
      var field := elementsConfig[key];
      if IsRequired(field.validationRules) {
        isValid := isValid && field.valid && field.touched;
      } else {
        isValid := isValid && field.valid;
      }
      pending := pending - {key};
      if !isValid {
        break;
      }
    }
  }

  /** How `validateInput` ends: normally, or with the `TypeError` of reading a field the map does not hold. */
  datatype Status = Done | UnknownField

  class Form {
    var elementsConfig: map<string, FieldConfig>
    var isFromValid: bool
    /** The e-mail regular expression's `test`. */
    const emailShape: string -> bool

    /** Mounting: the map starts as the static form structure and the gate starts closed. */
    constructor (formStructure: map<string, FieldConfig>, emailShape: string -> bool)
      ensures elementsConfig == formStructure && !isFromValid
      ensures this.emailShape == emailShape
    {
      elementsConfig := formStructure;
      isFromValid := false;
      this.emailShape := emailShape;
    }

    /** `handleInputChange`: replaces the value of one field and nothing else. */
    method HandleInputChange(name: string, value: string)
      modifies this`elementsConfig
      ensures elementsConfig.Keys == old(elementsConfig).Keys + {name}
      ensures forall key :: key in old(elementsConfig) && key != name ==> elementsConfig[key] == old(elementsConfig)[key]
      ensures name in old(elementsConfig) ==> elementsConfig[name] == old(elementsConfig)[name].(value := value)
      ensures name !in old(elementsConfig) ==> elementsConfig[name] == ValueOnly(value)
    {
      var field := if name in elementsConfig then elementsConfig[name] else ValueOnly("");
      elementsConfig := elementsConfig[name := field.(value := value)];
    }

    /**
     `validateInput`: without rules nothing happens; otherwise the field's
     value is run through the rules and the field is written back touched,
     with its verdict and its joined messages.
     */
    method ValidateInput(name: string, validationRules: Option<seq<Rule>>) returns (status: Status)
      modifies this`elementsConfig
      ensures status == UnknownField <==> validationRules.Some? && name !in old(elementsConfig)
      ensures validationRules.None? || status == UnknownField ==> elementsConfig == old(elementsConfig)
      ensures elementsConfig.Keys == old(elementsConfig).Keys
      ensures forall key :: key in old(elementsConfig) && key != name ==> elementsConfig[key] == old(elementsConfig)[key]
      ensures validationRules.Some? && name in old(elementsConfig) ==>
        var before := old(elementsConfig)[name];
        && elementsConfig[name] == ValidatedField(before, name, validationRules.value, emailShape)
        && elementsConfig[name].touched
        && elementsConfig[name].value == before.value
        && elementsConfig[name].validationRules == before.validationRules
        && elementsConfig[name].valid == AllPass(name, before.value, validationRules.value, emailShape)
    {
      if validationRules.None? {
        return Done;
      }
      if name !in elementsConfig {
        return UnknownField;
      }
      var rules := validationRules.value;
      var isValid, errorMassage := RunRules(name, elementsConfig[name].value, rules, emailShape);
      elementsConfig := elementsConfig[name := elementsConfig[name].(
        valid := isValid,
        touched := true,
        errorMassage := Join(errorMassage, ", "))];
      status := Done;
    }

    /**
     The form-validity effect: recomputes the gate and writes it only when it
     differs from the current one; `written` says whether the setter ran.
     */
    method SyncFormValidity() returns (written: bool)
      modifies this`isFromValid
      ensures isFromValid == FormValid(elementsConfig)
      ensures written == (old(isFromValid) != FormValid(elementsConfig))
    {
      var isValid := CheckFields(elementsConfig);
      written := isValid != isFromValid;
      if written {
        isFromValid := isValid;
      }
    }
  }

  /** Typing into a known field never opens or closes the gate. */
  lemma ValueChangeKeepsGate(elementsConfig: map<string, FieldConfig>, name: string, value: string)
    requires name in elementsConfig
    ensures FormValid(elementsConfig[name := elementsConfig[name].(value := value)]) == FormValid(elementsConfig)
  {
    var after := elementsConfig[name := elementsConfig[name].(value := value)];
    assert after.Keys == elementsConfig.Keys;
    forall key | key in after ensures FieldReady(after[key]) == FieldReady(elementsConfig[key]) {
    }
  }

  /** A field that validation marks invalid always shows an error message. */
  lemma InvalidFieldHasMessage(field: FieldConfig, name: string, rules: seq<Rule>, emailShape: string -> bool)
    requires !ValidatedField(field, name, rules, emailShape).valid
    ensures ValidatedField(field, name, rules, emailShape).errorMassage != ""
  {
    FailureMessageLast(name, field.value, rules, emailShape);
  }

  /** Validating a required field whose value is blank closes the gate. */
  lemma BlankRequiredClosesGate(
    elementsConfig: map<string, FieldConfig>, name: string, rules: seq<Rule>, emailShape: string -> bool)
    requires name in elementsConfig && IsBlank(elementsConfig[name].value)
    requires exists j :: 0 <= j < |rules| && rules[j].Required?
    ensures !FormValid(elementsConfig[name := ValidatedField(elementsConfig[name], name, rules, emailShape)])
  {
    RequiredBlankInvalid(name, elementsConfig[name].value, rules, emailShape);
    var after := elementsConfig[name := ValidatedField(elementsConfig[name], name, rules, emailShape)];
    assert !FieldReady(after[name]);
  }

  /** A required field that was never validated keeps the gate closed. */
  lemma UntouchedRequiredClosesGate(elementsConfig: map<string, FieldConfig>, name: string)
    requires name in elementsConfig
    requires IsRequired(elementsConfig[name].validationRules) && !elementsConfig[name].touched
    ensures !FormValid(elementsConfig)
  {
  }

  /**
   Mounting a form whose structure holds an untouched required field and
   running the effect once: the submit button stays disabled and the setter
   does not run.
   */
  method MountThenSync(formStructure: map<string, FieldConfig>, emailShape: string -> bool, name: string)
    returns (submitEnabled: bool, written: bool)
    requires name in formStructure
    requires IsRequired(formStructure[name].validationRules) && !formStructure[name].touched
    ensures !submitEnabled && !written
  {
    var form := new Form(formStructure, emailShape);
    written := form.SyncFormValidity();
    submitEnabled := form.isFromValid;
  }
}
