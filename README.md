# JSON rule validator, modelled in Dafny

The repository is a single class, `JsonValidator`, that checks a parsed JSON
document against a small custom schema. The schema has five optional rule
kinds, and the validator runs them in this order:

1. `required_fields`: every listed name must be a key of the document.
2. `at_least_one_of`: some listed name must be a key of the document.
3. `either_one_or_another`: the two names of a `{field1, field2}` pair must not both be keys.
4. `mutually_exclusive_fields`: the same test as 3, on its own pair and with its own message.
5. `field_values`: a listed field that is present must hold one of its allowed values.

The first rule that fails stops the run, and its message is the reason for
the failure. The source signals that failure by raising `ValueError`.

The model has four modules:

- `JsonModel` (`model.dfy`) holds the data. A JSON `Value` is a datatype compared only by structural equality, and a `Document` is a `map<string, Value>`. A `Schema` is a record of five `Option` fields. Its accessors supply the defaults that `schema.get(key, default)` gives: an empty list, or the empty pair object whose names read as `None`. The `field_values` object becomes a sequence of `(field, allowed values)` entries in the order the object lists them. The raised exception becomes `Outcome = Ok | Fail(Violation)`. Each `Violation` constructor names its rule and carries what the message reports.
- `Rules` (`rules.dfy`) holds one function per rule, with the first-match searches the two `for` loops perform, plus lemmas about single rules.
- `JsonValidator` (`validator.dfy`) holds `Validate`, the first-failure composition, plus lemmas relating the rules.
- `Scenarios` (`scenarios.dfy`) works through concrete documents and schemas.

An absent or empty `at_least_one_of` is not vacuously satisfied. The code
defaults that key to `[]`, and `any` over an empty list is false
(`json_validator.py:35-37`), so every schema without a non-empty
`at_least_one_of` rejects every document. `EmptyAtLeastOneOfRejectsEveryDocument`
and `EmptySchemaRejectsEveryDocument` state this behaviour. `FieldValuesScenario`
shows the effect: a schema with only a field-values rule rejects a document
whose value is allowed.

## Model

| member | source | states |
|---|---|---|
| Rules.FirstMissing | json_validator.py:30-32 | The result is none exactly when every listed name is a key of the document. Otherwise it is the position of the first name that is not a key, and every name before it is a key. |
| Rules.CheckRequiredFields | json_validator.py:28-32 | The rule passes exactly when every name in `required_fields` is a key. An absent list defaults to empty and always passes. On failure it reports the first missing name in list order. |
| Rules.AnyPresent | json_validator.py:36 | The result is true exactly when some listed name is a key of the document. |
| Rules.CheckAtLeastOneOf | json_validator.py:34-37 | The rule passes exactly when some name of `at_least_one_of` is a key. Because the list defaults to empty, an absent or empty list always fails. On failure it reports the list. |
| Rules.CheckEitherOneOrAnother | json_validator.py:39-44 | The rule fails exactly when the pair gives both names and both are keys. Neither name present passes. A name missing from the pair reads as `None`, and the rule passes. On failure it reports the two names. |
| Rules.CheckMutuallyExclusive | json_validator.py:46-51 | The same condition as the either-or rule, applied to the `mutually_exclusive_fields` pair, with its own violation. |
| Rules.FirstInvalid | json_validator.py:55-56 | The result is none exactly when every entry's field is either absent or holds an allowed value. Otherwise it is the position of the first entry that is not met, and every entry before it is met. |
| Rules.CheckFieldValues | json_validator.py:53-58 | The rule passes exactly when every listed field that is present holds an allowed value, so absent fields are ignored. On failure it reports the first offending entry in schema order, with the value found and the allowed list. |
| Rules.Check | json_validator.py:16-20 | A rule's failure is always tagged with that rule. |
| Rules.EmptyAtLeastOneOfFails | json_validator.py:35-37 | An absent or empty `at_least_one_of` fails for every document and reports the empty list. |
| Rules.PairRulesAgree | json_validator.py:39-51 | With the same pair, the either-or rule and the mutually-exclusive rule pass and fail together. |
| Rules.RequiredFieldsOrderIrrelevant | json_validator.py:29-32 | Permuting `required_fields` does not change whether the rule passes. |
| Rules.AtLeastOneOfOrderIrrelevant | json_validator.py:35-36 | Permuting `at_least_one_of` does not change whether the rule passes. |
| Rules.FieldValuesOrderIrrelevant | json_validator.py:54-56 | Reordering the `field_values` entries does not change whether the rule passes. |
| Rules.FirstMissingIsLocal | json_validator.py:30-31 | The required-fields search gives the same result on two documents that agree on which listed names are keys. |
| Rules.FirstInvalidIsLocal | json_validator.py:55-56 | The field-values search gives the same result on two documents that agree on the listed fields: the same ones are present, with the same values. |
| Rules.CheckReadsOwnSpec | json_validator.py:29-54 | Each rule reads only its own schema key. Two schemas that agree on that key give the same outcome for the rule. |
| Rules.CheckIsLocal | json_validator.py:28-58 | Each rule reads only the document keys the schema names. Two documents that agree on those keys get the same outcome and the same report. |
| JsonValidator.Validate | json_validator.py:16-22 | Validation succeeds exactly when all five rules pass. On failure, the result is the violation of some rule, and every rule earlier in the order passed. |
| JsonValidator.EmptyAtLeastOneOfRejectsEveryDocument | json_validator.py:16-17 | With an absent or empty `at_least_one_of`, every document fails, either on a required field or on that rule. If the required fields pass, the report is the empty list. |
| JsonValidator.EmptySchemaRejectsEveryDocument | json_validator.py:16-22 | The schema with no rule keys rejects every document at the at-least-one-of rule. |
| JsonValidator.PassingDocumentHasOneOf | json_validator.py:17 | A document that passes has at least one of the `at_least_one_of` names as a key. |
| JsonValidator.LaterRulesNotConsulted | json_validator.py:16-22 | Once a rule fails, rules after it are not consulted. A schema that agrees on that rule and on every earlier one gives the same outcome, whatever its later rules say. |
| JsonValidator.ValidateIsLocal | json_validator.py:28-58 | Validation only tests membership and reads values at the keys the schema names, and it changes nothing. Documents that agree on those keys get the same outcome. |
| JsonValidator.VerdictIgnoresListOrder | json_validator.py:16-20 | Reordering `required_fields`, `at_least_one_of` or the `field_values` entries does not change whether a document passes. |
| Scenarios.MissingRequiredFieldIsNamed | json_validator.py:30-32 | An empty document with `required_fields: ["a"]` fails, naming `a`. |
| Scenarios.AtLeastOneOfScenario | json_validator.py:34-37 | `{"x": 1}` passes `at_least_one_of: ["x", "y"]`. The empty document fails and reports the list. |
| Scenarios.FieldValuesScenario | json_validator.py:16-20 | A schema with only `field_values` fails at the at-least-one-of rule. With `at_least_one_of: ["status"]` added, `"open"` passes, and `"pending"` fails with the allowed list. |
| Scenarios.MutuallyExclusiveScenario | json_validator.py:46-51 | `{"a": 1, "b": 1}` fails with the mutually-exclusive violation naming `a` and `b`; `{"a": 1}` passes. |
| Scenarios.EitherOneOrAnotherScenario | json_validator.py:39-44 | Both names present fails. One name present passes, and so does neither. |

## Left out

- File opening and `json.load` (`json_validator.py:9-13`) are I/O and a library parser. The model takes the document and the schema already parsed.
- The catch-all `except Exception` turns I/O, parse and shape errors into `False`, and the failure message is printed (`json_validator.py:24-26`). Only the rule-violation channel is modelled, as `Outcome`. The boolean result is `Validate(...).Ok?`.
- The module-level example run (`json_validator.py:61-64`) runs against files that are not present, so it is not modelled.
- Malformed schemas are not modelled, because the typed `Schema` record rules them out. Examples are a pair spec that is not an object, non-string field names, a top-level document that is not an object, and `allowed_values` given as a string, where `in` becomes a substring test.
- Python's cross-type equality (`1 == 1.0 == True`) and floating-point numbers are not modelled. `Value` has integers only, and values are equal exactly when they are structurally equal.
- Message texts are not rendered. A `Violation` carries the rule and the names, value or list that the message would show.
- Duplicate keys in `field_values` cannot occur in a Python dict. The entry sequence does not forbid them, and every entry is checked in order.
- Validation is pure and cannot change its inputs, so calling it twice gives the same result by construction. `ValidateIsLocal` states the stronger fact that only the named keys matter.
