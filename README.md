# Event form: field state, validation and the submit gate

A Dafny model of the state logic of the event-creation form component
(`src/Containers/Form/Form.js`). The component keeps two pieces of state:

- `elementsConfig`, a map from field name to a field record holding the
  field's `value`, whether it is `valid`, whether it was `touched`, its
  `errorMassage` (the source's spelling) and its `validationRules`;
- `isFromValid` (again the source's spelling), the flag that enables the
  submit button.

Three pieces of code change that state, and all three are modelled:

- the change handler `handleInputChange` replaces the value of one field;
- the blur-time validator `validateInput` runs the field's rules
  (`required`, `isEmail`, `decimals`) in order, stops at the first rule that
  fails, and writes back the verdict, the touched flag and the joined
  messages;
- the form-validity effect folds over all fields and writes the gate only
  when the gate changes.

Files:

- `wrappers.dfy`: `Option`, for properties that may be `undefined`.
- `text.dfy`: the ECMAScript string operations the validator uses:
  `trim`, `indexOf`, `join`, and `${n}` for an integer.
- `rules.dfy`: the rule datatype, one step of the rule `switch`, and the
  rule loop proved against a declarative specification (every rule passes;
  the messages pushed up to the first failure).
- `form.dfy`: the field record, the form class with its three operations,
  the loop of the validity effect, and lemmas that tie validation to the gate.

The form's state is a class whose fields the operations reassign. The two
loops of the source are methods with invariants. The code that only computes
a value is written as functions.

Behaviour of the code that the model keeps as written:

- `decimals` counts every character after the separator, not only digits
  (`Form.js` lines 78 and 82). The comment at lines 69-70 speaks of counting
  decimals.
- `decimals` reads a value without `.` as an integer, so `"12,34"` passes
  every limit (line 73). See `Rules.DecimalsExamples` and
  `Rules.DecimalsWithoutDot`.
- When `isEmail` fails after `required` has passed, the error text holds both
  messages, joined by `", "` (lines 58, 66 and 103). See
  `Rules.PassedRuleMessageKept`.

## Model

| member | source | states |
|---|---|---|
| `Text.Trim` | src/Containers/Form/Form.js:56 | `trim` returns a string no longer than its input that neither starts nor ends with ECMAScript white space |
| `Text.TrimEmptyIffBlank` | src/Containers/Form/Form.js:56 | `value.trim() === ""` holds exactly when every character of the value is white space |
| `Text.IndexOf` | src/Containers/Form/Form.js:71-72 | `indexOf` gives -1 exactly when the character is absent; otherwise it gives the index of the character's first occurrence |
| `Text.Join` | src/Containers/Form/Form.js:103 | `join` of no messages is empty; otherwise the text starts with the first message and ends with the last |
| `Text.JoinSnoc` | src/Containers/Form/Form.js:103 | `join(", ")` of an array with one more message is the previous text, then `", "`, then that message (or the message alone when the array was empty) |
| `Text.NatToString` | src/Containers/Form/Form.js:87 | the decimal text of the `decimals` limit in the message is non-empty, has no leading zero, and reads back as the same number |
| `Text.IntToString` | src/Containers/Form/Form.js:87 | the text of a limit starts with `-` exactly when the limit is negative; the rest is non-empty, all decimal digits, and reads back as the limit's absolute value |
| `Rules.DecimalsCheck` | src/Containers/Form/Form.js:68-89 | the `decimals` case: a value without `.` passes silently; a pushed message is always `Only <limit> decimals are allowed`; a failing value always pushes it (the case analysis is in the `Decimals…` lemmas below) |
| `Rules.Check` | src/Containers/Form/Form.js:54-92 | one pass through the `switch`: `required`, `isEmail` or `decimals` by the rule's kind; what each case gives is stated by `RequiredRule`, `EmailRule`, the `Decimals…` lemmas, `FailingStepPushes` and `SilentStepPasses` |
| `Rules.RequiredRule` | src/Containers/Form/Form.js:55-58 | `required` fails exactly when the value is blank, and pushes `<name> is required` whether it fails or not |
| `Rules.RequiredBlankInvalid` | src/Containers/Form/Form.js:55-58 | a blank value never passes a rule list that holds `required`, wherever `required` stands in the list |
| `Rules.EmailRule` | src/Containers/Form/Form.js:60-67 | a blank value passes `isEmail` and pushes nothing; a non-blank value passes exactly when it matches the e-mail pattern, and `Not a valid email` is pushed |
| `Rules.DecimalsWithoutDot` | src/Containers/Form/Form.js:71-74 | a value without `.` counts as an integer, even when it holds `,`: it passes and pushes nothing |
| `Rules.DecimalsLeadingDot` | src/Containers/Form/Form.js:73-74 | a value whose first character is `.` and which holds no `,` counts as an integer too, because index 0 is falsy |
| `Rules.DecimalsDotOnly` | src/Containers/Form/Form.js:77-88 | with the first `.` at an index `d > 0` and no `,`, the value passes exactly when `length - 1 - d` is at most the limit, and the message is pushed |
| `Rules.DecimalsCommaWins` | src/Containers/Form/Form.js:77-88 | with both `.` and `,`, the value passes exactly when `length - 1 - (first comma index)` is at most the limit: the comma's verdict overwrites the dot's |
| `Rules.DecimalsExamples` | src/Containers/Form/Form.js:68-89 | `"12"` passes every limit; `"12.345"` passes exactly the limits of 3 and up; `"12,34"` passes every limit |
| `Rules.FailingStepPushes` | src/Containers/Form/Form.js:53-92 | a rule that fails always pushes its message: the silent `break`s of `isEmail` and `decimals` happen only on a pass |
| `Rules.SilentStepPasses` | src/Containers/Form/Form.js:53-92 | a rule that pushes no message has passed and is not `required`: only the blank-`isEmail` and integer-`decimals` `break`s are silent |
| `Rules.FirstFailure` | src/Containers/Form/Form.js:53-95 | the index of the first failing rule: every earlier rule passes and the rule at that index fails, or it is the list's length when no rule fails |
| `Rules.RunRules` | src/Containers/Form/Form.js:49-95 | the rule loop: `isValid` is true exactly when every rule passes, and the message array holds the messages pushed by the rules up to and including the first failing one, in rule order |
| `Rules.FailureMessageLast` | src/Containers/Form/Form.js:53-103 | when validation fails, the joined error text ends with the message of the first rule that failed |
| `Rules.PassedRuleMessageKept` | src/Containers/Form/Form.js:53-103 | with `required` then `isEmail`, a non-blank value that is not an e-mail address leaves the field invalid, with the text `<name> is required, Not a valid email` |
| `FormContainer.IsRequired` | src/Containers/Form/Form.js:18-21 | a field counts as required when it has rules and its `required` rule is set (the loop of `CheckFields` and `UntouchedRequiredClosesGate` use it) |
| `FormContainer.FieldReady` | src/Containers/Form/Form.js:18-25 | what the effect asks of one field: valid, and touched too when required (pinned down by `CheckFields`) |
| `FormContainer.FormValid` | src/Containers/Form/Form.js:16-28 | the gate's value: every field is ready (`CheckFields` is proved to compute it; `ValueChangeKeepsGate`, `BlankRequiredClosesGate`, `UntouchedRequiredClosesGate` state its properties) |
| `FormContainer.ValidatedField` | src/Containers/Form/Form.js:97-105 | the written-back field keeps its value and rules, is touched, and is valid exactly when no rule fails |
| `FormContainer.InvalidFieldHasMessage` | src/Containers/Form/Form.js:97-105 | a field that validation marks invalid always gets a non-empty error message |
| `FormContainer.CheckFields` | src/Containers/Form/Form.js:16-28 | the effect's loop gives true exactly when every field is valid, and touched as well when its rules have `required` set |
| `FormContainer.Form.constructor` | src/Containers/Form/Form.js:11-12 | at mount the map is the static form structure and the gate is closed |
| `FormContainer.Form.HandleInputChange` | src/Containers/Form/Form.js:34-44 | only the `value` of the named field changes, to the typed text; every other field and every other property are unchanged |
| `FormContainer.Form.ValidateInput` | src/Containers/Form/Form.js:46-106 | no rules: nothing changes. Unknown field: the read fails and nothing changes. Otherwise only the named field changes. It becomes touched, its `valid` says whether every rule passes, and its message is the joined messages up to the first failure; its value and rules are kept |
| `FormContainer.Form.SyncFormValidity` | src/Containers/Form/Form.js:15-32 | afterwards the gate equals the form's validity; the setter runs exactly when the validity differs from the current gate |
| `FormContainer.ValueChangeKeepsGate` | src/Containers/Form/Form.js:15-44 | changing the value of a known field never changes whether the form is valid |
| `FormContainer.BlankRequiredClosesGate` | src/Containers/Form/Form.js:18-23 | after a field with a `required` rule and a blank value is validated, the form is not valid |
| `FormContainer.UntouchedRequiredClosesGate` | src/Containers/Form/Form.js:18-23 | a field with `required` set that was never validated keeps the form invalid |
| `FormContainer.MountThenSync` | src/Containers/Form/Form.js:11-32 | mounting a structure that holds an untouched required field and running the effect leaves the submit button disabled, and the setter does not run |

## Left out

- Rendering: the JSX tree, the child widgets, the CSS classes and the section
  layout (`Form.js` lines 108-269). They only read the state.
- React scheduling. The model calls each handler and the effect in sequence
  on the current state. `useState` batching, re-render timing and handlers
  that read the state of an earlier render are not modelled.
- The e-mail regular expression (line 63) is the parameter `emailShape` of
  the form. Every property holds whatever the pattern accepts.
- The static form structure (`../../Data/FormStructure`) is not part of this
  model. The constructor takes the initial map as a parameter.
- Strings are sequences of Unicode characters. JavaScript counts UTF-16 code
  units, so `length` and `indexOf` differ for characters outside the Basic
  Multilingual Plane.
- The `decimals` limit is an integer. A fractional or non-numeric limit is
  not modelled.
- The values of `required` and `isEmail` are booleans. Other truthy or falsy
  values are not modelled. The validator ignores these values, because it
  only looks at which keys are present. The validity effect reads
  `required`'s value.
- Keys of a JavaScript object are unique, so a field's rules hold each kind
  at most once. The model's rule lists may repeat a kind; `IsRequired` then
  asks whether any `required` rule is set.
- `Text.IntToString` renders every integer in plain decimal. JavaScript writes
  numbers of 1e21 and above in exponent form.
- Rule lists are closed: an unknown rule key cannot be written. The
  `default: throw` branch (lines 90-91) is unreachable by construction.
- `FormContainer.Form.HandleInputChange`, for a name the map does not hold:
  the source adds a record whose only property is `value`. The model adds a
  record whose `valid` and `touched` are false, whose message is empty and
  which has no rules. Every reader of those properties treats `undefined`
  the same way. One exception: the effect then stores `undefined` in the gate
  rather than `false`, and the model does not distinguish the two.
- `FormContainer.CheckFields` visits the keys in an unspecified order, not
  in JavaScript's property order. The verdict does not depend on the order.
  Only the point where the loop stops does.
